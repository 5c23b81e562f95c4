/** Displays as the host reports them, and the detector deciding whether a
    display-changed notification is a genuine layout change. */
module Displays {
  import opened Results
  import opened Strings

  /** `chrome.system.display.Bounds`. */
  datatype Rect = Rect(left: int, top: int, width: int, height: int)

  datatype DisplayMode = DisplayMode(width: nat, height: nat, isNative: bool)

  /** The fields of the host's display record that the code reads. */
  datatype DisplayInfo = DisplayInfo(
    id: string, name: string, isPrimary: bool, isInternal: bool,
    bounds: Rect, workArea: Rect, modes: seq<DisplayMode>)

  /** The `Display` class. The host reports ids as strings. */
  datatype Display = Display(
    id: string, name: string, isPrimary: bool, isInternal: bool,
    bounds: Rect, workArea: Rect, resolution: string)

  /** `modes.find((m) => m.isNative)`, as an index. */
  function FirstNative(modes: seq<DisplayMode>): (r: Option<nat>)
    ensures r.Some? ==> r.value < |modes| && modes[r.value].isNative
    ensures r.Some? ==> forall j :: 0 <= j < r.value ==> !modes[j].isNative
    ensures r.None? ==> forall j :: 0 <= j < |modes| ==> !modes[j].isNative
  {
    if |modes| == 0 then None
    else if modes[0].isNative then Some(0)
    else match FirstNative(modes[1..]) case None => None case Some(k) => Some(k + 1)
  }

  /** `${width}x${height}`. */
  function ResolutionText(width: nat, height: nat): string {
    NatToString(width) + "x" + NatToString(height)
  }

  function IndexOf(s: string, c: char): (r: Option<nat>)
    ensures r.Some? ==> r.value < |s| && s[r.value] == c && forall j :: 0 <= j < r.value ==> s[j] != c
    ensures r.None? ==> c !in s
  {
    if |s| == 0 then None
    else if s[0] == c then Some(0)
    else match IndexOf(s[1..], c) case None => None case Some(k) => Some(k + 1)
  }

  /** Reads a "<W>x<H>" resolution back into its two numbers. */
  function ParseResolution(s: string): Option<(nat, nat)> {
    match IndexOf(s, 'x')
    case None => None
    case Some(k) =>
      var w, h := s[..k], s[k + 1..];
      if |w| > 0 && |h| > 0 && AllDigits(w) && AllDigits(h) then Some((DigitsToNat(w), DigitsToNat(h)))
      else None
  }

  /** The resolution string names exactly the native mode's width and height. */
  lemma ResolutionRoundTrip(width: nat, height: nat)
    ensures ParseResolution(ResolutionText(width, height)) == Some((width, height))
  {
    var w, h := NatToString(width), NatToString(height);
    var s := w + "x" + h;
    assert forall j :: 0 <= j < |w| ==> w[j] != 'x';
    assert s[|w|] == 'x';
    assert forall j :: 0 <= j < |w| ==> s[j] == w[j];
    assert IndexOf(s, 'x') == Some(|w|);
    assert s[..|w|] == w && s[|w| + 1..] == h;
    DigitsRoundTrip(width);
    DigitsRoundTrip(height);
  }

  datatype DisplayError = NoNativeMode(id: string)

  /** `new Display(d)`: copies the identity and geometry fields and renders the
      first native mode as the resolution; with no native mode the
      constructor throws. */
  function DisplayFrom(info: DisplayInfo): (r: Result<Display, DisplayError>)
    ensures r.Ok? <==> exists j :: 0 <= j < |info.modes| && info.modes[j].isNative
    ensures r.Ok? ==>
      && r.value.id == info.id && r.value.name == info.name
      && r.value.isPrimary == info.isPrimary && r.value.isInternal == info.isInternal
      && r.value.bounds == info.bounds && r.value.workArea == info.workArea
    ensures r.Ok? ==>
      var m := info.modes[FirstNative(info.modes).value];
      && r.value.resolution == ResolutionText(m.width, m.height)
      && ParseResolution(r.value.resolution) == Some((m.width, m.height))
  {
    match FirstNative(info.modes)
    case None => Err(NoNativeMode(info.id))
    case Some(k) =>
      var m := info.modes[k];
      ResolutionRoundTrip(m.width, m.height);
      Ok(Display(info.id, info.name, info.isPrimary, info.isInternal, info.bounds, info.workArea,
                 ResolutionText(m.width, m.height)))
  }

  /** `StrippedDisplay`: the fields that identify a monitor. */
  datatype Identity = Identity(id: string, name: string, isPrimary: bool, isInternal: bool)

  /** `#mapImportantFields`. */
  function MapImportantFields(d: Display): Identity {
    Identity(d.id, d.name, d.isPrimary, d.isInternal)
  }

  function Identities(ds: seq<Display>): seq<Identity> {
    seq(|ds|, i requires 0 <= i < |ds| => MapImportantFields(ds[i]))
  }

  /** `{bounds, workArea}` of one display. */
  datatype Size = Size(bounds: Rect, workArea: Rect)

  function Sizes(ds: seq<Display>): seq<Size> {
    seq(|ds|, i requires 0 <= i < |ds| => Size(ds[i].bounds, ds[i].workArea))
  }

  /** `#areDisplaySizesEqual`: compares height, left, top and width. */
  predicate AreDisplaySizesEqual(a: Rect, b: Rect) {
    a.height == b.height && a.left == b.left && a.top == b.top && a.width == b.width
  }

  /** Those four fields are all of a rectangle, so the test is rectangle equality. */
  lemma SizesEqualIsRectEquality(a: Rect, b: Rect)
    ensures AreDisplaySizesEqual(a, b) <==> a == b
  {
  }

  /** The shelf is hidden on some display: its work area fills its bounds
      (screen locked, or a window in full screen). */
  predicate SomeShelfHidden(ds: seq<Display>) {
    exists i :: 0 <= i < |ds| && AreDisplaySizesEqual(ds[i].bounds, ds[i].workArea)
  }

  /** The answer of `displaysChanged` and the saved snapshot afterwards. */
  datatype ChangeCheck = ChangeCheck(changed: bool, saved: seq<Display>)

  /** The snapshot compared against: the stored one, or, when nothing is
      stored yet, the current displays (which are then stored). */
  function SavedOrCurrent(stored: Option<seq<Display>>, current: seq<Display>): seq<Display> {
    match stored case Some(s) => s case None => current
  }

  /** `Displays.displaysChanged`. JSON-text equality of the stripped lists is
      modelled as equality of the lists. */
  function DisplaysChanged(stored: Option<seq<Display>>, current: seq<Display>): (r: ChangeCheck)
    ensures r.changed <==>
      || Identities(SavedOrCurrent(stored, current)) != Identities(current)
      || (Sizes(SavedOrCurrent(stored, current)) != Sizes(current) && !SomeShelfHidden(current))
    ensures r.saved == (if r.changed then current else SavedOrCurrent(stored, current))
  {
    var saved := SavedOrCurrent(stored, current);
    if Identities(saved) != Identities(current) then ChangeCheck(true, current)
    else if Sizes(saved) == Sizes(current) then ChangeCheck(false, saved)
    else if SomeShelfHidden(current) then ChangeCheck(false, saved)
    else ChangeCheck(true, current)
  }

  /** Asking again with the same current displays reports no change, whatever
      the first answer was. */
  lemma SecondCheckReportsNoChange(stored: Option<seq<Display>>, current: seq<Display>)
    ensures !DisplaysChanged(Some(DisplaysChanged(stored, current).saved), current).changed
  {
  }

  /** Hiding the shelf on one display (lock screen, full screen) is not a
      change, even though the raw geometry differs. */
  lemma ShelfHiddenIsNoChange(saved: seq<Display>, current: seq<Display>)
    requires Identities(saved) == Identities(current)
    requires SomeShelfHidden(current)
    ensures DisplaysChanged(Some(saved), current) == ChangeCheck(false, saved)
  {
  }
}
