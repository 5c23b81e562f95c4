/** The checks the options page runs over an edited configuration before
    saving it, and the order in which it lists the connected displays. */
module Options {
  import opened Results
  import opened JsModel
  import opened Sequences
  import opened Displays

  /** An entry of the parsed actions array: the two fields these checks read. */
  datatype ActionConfig = ActionConfig(id: JsValue, display: JsValue)

  /** An entry of the parsed matchers array: its `actions` value after the
      one level of flattening `flat()` applies. */
  datatype MatcherConfig = MatcherConfig(actions: seq<JsValue>)

  function ActionIds(actions: seq<ActionConfig>): (r: seq<JsValue>)
    ensures |r| == |actions|
    ensures forall i :: 0 <= i < |actions| ==> r[i] == actions[i].id
  {
    seq(|actions|, i requires 0 <= i < |actions| => actions[i].id)
  }

  function ActionLists(matchers: seq<MatcherConfig>): (r: seq<seq<JsValue>>)
    ensures |r| == |matchers|
    ensures forall j :: 0 <= j < |matchers| ==> r[j] == matchers[j].actions
  {
    seq(|matchers|, j requires 0 <= j < |matchers| => matchers[j].actions)
  }

  /** `x` is the id of some action. */
  ghost predicate Defined(actions: seq<ActionConfig>, x: JsValue) {
    exists i :: 0 <= i < |actions| && actions[i].id == x
  }

  /** `x` is named in the action list of some matcher. */
  ghost predicate Referenced(matchers: seq<MatcherConfig>, x: JsValue) {
    exists j :: 0 <= j < |matchers| && x in matchers[j].actions
  }

  /** The referenced ids in `Set` iteration order (first occurrence). */
  function ReferencedIds(matchers: seq<MatcherConfig>): (r: seq<JsValue>)
    ensures Distinct(r)
    ensures forall x :: x in r <==> Referenced(matchers, x)
  {
    var rows := ActionLists(matchers);
    forall x ensures x in Flatten(rows) <==> Referenced(matchers, x) {
      FlattenMember(rows, x);
    }
    KeepFirst(Flatten(rows))
  }

  /** The ids matchers name that no action defines, each reported once. */
  function MissingActionIds(actions: seq<ActionConfig>, matchers: seq<MatcherConfig>): (r: seq<JsValue>)
    ensures Distinct(r)
    ensures forall x :: x in r <==> Referenced(matchers, x) && !Defined(actions, x)
  {
    var ids := ActionIds(actions);
    var refs := ReferencedIds(matchers);
    var r := Filter(refs, x => x !in ids);
    SubsequenceDistinct(r, refs);
    forall x ensures x in ids <==> Defined(actions, x) {
      if x in ids {
        var i :| 0 <= i < |ids| && ids[i] == x;
        assert actions[i].id == x;
      }
    }
    assert forall x :: x in r <==> x in refs && x !in ids by {
      forall x | x in refs && x !in ids ensures x in r {
        var k :| 0 <= k < |refs| && refs[k] == x;
      }
      forall x | x in r ensures x in refs && x !in ids {
        var k :| 0 <= k < |r| && r[k] == x;
      }
    }
    r
  }

  /** `validateMatchersAndActions`: every id a matcher names is defined. */
  function ValidateMatchersAndActions(actions: seq<ActionConfig>, matchers: seq<MatcherConfig>): (ok: bool)
    ensures ok <==> forall x :: Referenced(matchers, x) ==> Defined(actions, x)
  {
    var missing := MissingActionIds(actions, matchers);
    assert |missing| > 0 ==> missing[0] in missing;
    |missing| == 0
  }

  /** Adding a matcher whose ids are all defined keeps a valid configuration valid. */
  lemma ValidAfterDefinedMatcher(actions: seq<ActionConfig>, matchers: seq<MatcherConfig>, m: MatcherConfig)
    requires ValidateMatchersAndActions(actions, matchers)
    requires forall x :: x in m.actions ==> Defined(actions, x)
    ensures ValidateMatchersAndActions(actions, matchers + [m])
  {
    var ms := matchers + [m];
    forall x | Referenced(ms, x) ensures Defined(actions, x) {
      var j :| 0 <= j < |ms| && x in ms[j].actions;
      if j < |matchers| {
        assert Referenced(matchers, x);
      }
    }
  }

  /** A matcher naming an undefined id makes the configuration invalid. */
  lemma InvalidWithUndefinedReference(actions: seq<ActionConfig>, matchers: seq<MatcherConfig>, j: nat, x: JsValue)
    requires j < |matchers| && x in matchers[j].actions
    requires forall i :: 0 <= i < |actions| ==> actions[i].id != x
    ensures !ValidateMatchersAndActions(actions, matchers)
    ensures x in MissingActionIds(actions, matchers)
  {
    assert Referenced(matchers, x);
  }

  /** The names an action's `display` may use without a warning: every
      display's name and id, `primary`, and the tokens whose displays exist. */
  function KnownDisplayNames(ds: seq<DisplayInfo>): (r: set<string>)
    ensures "primary" in r
    ensures forall i :: 0 <= i < |ds| ==> ds[i].name in r && ds[i].id in r
    ensures (exists i :: 0 <= i < |ds| && !ds[i].isPrimary) ==> "-primary" in r
    ensures (exists i :: 0 <= i < |ds| && ds[i].isInternal) ==> "internal" in r
    ensures (exists i :: 0 <= i < |ds| && !ds[i].isInternal) ==> "-internal" in r
    ensures forall s :: s in r ==>
      || s == "primary"
      || (s == "-primary" && exists i :: 0 <= i < |ds| && !ds[i].isPrimary)
      || (s == "internal" && exists i :: 0 <= i < |ds| && ds[i].isInternal)
      || (s == "-internal" && exists i :: 0 <= i < |ds| && !ds[i].isInternal)
      || exists i :: 0 <= i < |ds| && (ds[i].name == s || ds[i].id == s)
  {
    (set i | 0 <= i < |ds| :: ds[i].name) + (set i | 0 <= i < |ds| :: ds[i].id) + {"primary"}
    + (if exists i :: 0 <= i < |ds| && !ds[i].isPrimary then {"-primary"} else {})
    + (if exists i :: 0 <= i < |ds| && ds[i].isInternal then {"internal"} else {})
    + (if exists i :: 0 <= i < |ds| && !ds[i].isInternal then {"-internal"} else {})
  }

  /** `-primary` is known only through a non-primary display or a display
      that is itself called or numbered `-primary`. */
  lemma MinusPrimaryNeedsSecondary(ds: seq<DisplayInfo>)
    requires forall i :: 0 <= i < |ds| ==> ds[i].name != "-primary" && ds[i].id != "-primary"
    ensures "-primary" in KnownDisplayNames(ds) <==> exists i :: 0 <= i < |ds| && !ds[i].isPrimary
  {
  }

  /** An action's `display` is known: a string in the known set. Any other
      value is never a member of the set of strings. */
  predicate DisplayKnown(known: set<string>, v: JsValue) {
    v.Str? && v.s in known
  }

  /** The distinct `display` values of the actions the known set lacks. */
  function UnknownDisplays(actions: seq<ActionConfig>, known: set<string>): (r: seq<JsValue>)
    ensures |r| == 0 <==> forall i :: 0 <= i < |actions| ==> DisplayKnown(known, actions[i].display)
  {
    var values := seq(|actions|, i requires 0 <= i < |actions| => actions[i].display);
    var names := KeepFirst(values);
    var r := Filter(names, v => !DisplayKnown(known, v));
    assert |r| == 0 ==> forall i :: 0 <= i < |actions| ==> DisplayKnown(known, actions[i].display) by {
      forall i | 0 <= i < |actions| && |r| == 0 ensures DisplayKnown(known, actions[i].display) {
        assert values[i] in names;
        var k :| 0 <= k < |names| && names[k] == values[i];
      }
    }
    assert |r| > 0 ==> exists i :: 0 <= i < |actions| && !DisplayKnown(known, actions[i].display) by {
      if |r| > 0 {
        assert r[0] in names && !DisplayKnown(known, r[0]);
        var i :| 0 <= i < |values| && values[i] == r[0];
      }
    }
    r
  }

  /** `warnForIncorrectMonitorIds`: true when no warning is raised. */
  function WarnForIncorrectMonitorIds(actions: seq<ActionConfig>, ds: seq<DisplayInfo>): (noWarning: bool)
    ensures noWarning <==> forall i :: 0 <= i < |actions| ==> DisplayKnown(KnownDisplayNames(ds), actions[i].display)
  {
    |UnknownDisplays(actions, KnownDisplayNames(ds))| == 0
  }

  /** Whether each of the three configuration texts parsed as JSON; a parsed
      actions or matchers array is carried in `Some`. */
  datatype Parsed = Parsed(actions: Option<seq<ActionConfig>>, matchers: Option<seq<MatcherConfig>>, settings: bool)

  /** The status message `validateOptions` settles on. */
  datatype Status = InvalidJson | IncorrectConfiguration | ValidWithWarnings | Validated {
    /** The boolean `validateOptions` returns, which gates saving. */
    predicate Valid() {
      this == ValidWithWarnings || this == Validated
    }
  }

  /** `validateOptions`, with the display list as an input. */
  function ValidateOptions(p: Parsed, ds: seq<DisplayInfo>): (r: Status)
    ensures r == InvalidJson <==> p.actions.None? || p.matchers.None? || !p.settings
    ensures r != InvalidJson ==> (r.Valid() <==> forall x :: Referenced(p.matchers.value, x) ==> Defined(p.actions.value, x))
    ensures r == ValidWithWarnings <==> r.Valid() && exists i :: 0 <= i < |p.actions.value| && !DisplayKnown(KnownDisplayNames(ds), p.actions.value[i].display)
  {
    if p.actions.None? || p.matchers.None? || !p.settings then InvalidJson
    else
      var hasWarnings := !WarnForIncorrectMonitorIds(p.actions.value, ds);
      if !ValidateMatchersAndActions(p.actions.value, p.matchers.value) then IncorrectConfiguration
      else if hasWarnings then ValidWithWarnings
      else Validated
  }

  /** Unknown display names never decide validity. */
  lemma WarningsDoNotAffectValidity(p: Parsed, ds1: seq<DisplayInfo>, ds2: seq<DisplayInfo>)
    ensures ValidateOptions(p, ds1).Valid() == ValidateOptions(p, ds2).Valid()
  {
  }

  // ---- The display listing order ----

  /** `key` does not decrease along `s`. */
  ghost predicate SortedBy<T>(s: seq<T>, key: T -> int) {
    forall i, j :: 0 <= i < j < |s| ==> key(s[i]) <= key(s[j])
  }

  /** Places `x` after every element whose key does not exceed its own. */
  function Insert<T>(x: T, s: seq<T>, key: T -> int): (r: seq<T>)
    ensures multiset(r) == multiset(s) + multiset{x}
  {
    if |s| == 0 then [x]
    else if key(x) < key(s[0]) then [x] + s
    else
      assert s == [s[0]] + s[1..];
      [s[0]] + Insert(x, s[1..], key)
  }

  /** Inserting into a sorted list keeps it sorted. */
  lemma {:induction false} InsertSorted<T>(x: T, s: seq<T>, key: T -> int)
    requires SortedBy(s, key)
    ensures SortedBy(Insert(x, s, key), key)
  {
    if |s| > 0 && key(x) >= key(s[0]) {
      var tail := s[1..];
      var rest := Insert(x, tail, key);
      InsertSorted(x, tail, key);
      var r := [s[0]] + rest;
      forall i, j | 0 <= i < j < |r| ensures key(r[i]) <= key(r[j]) {
        assert r[j] == rest[j - 1];
        if i == 0 {
          assert r[j] in multiset(rest);
          if r[j] != x {
            assert r[j] in multiset(tail);
            var m :| 0 <= m < |tail| && tail[m] == r[j];
            assert s[m + 1] == r[j];
          }
        } else {
          assert r[i] == rest[i - 1];
        }
      }
    }
  }

  /** A stable sort by `key`, as `Array.prototype.sort` with the comparator
      `(a, b) => key(a) - key(b)`: an insertion sort from the front. The
      contract states a sorted permutation; stability, which the two passes
      of `ShowDisplaysOrder` rely on, is what `ShowDisplaysDesktopOrder`
      establishes for their combination. */
  function SortBy<T>(s: seq<T>, key: T -> int): (r: seq<T>)
    ensures multiset(r) == multiset(s)
    ensures SortedBy(r, key)
  {
    if |s| == 0 then []
    else
      assert s == s[..|s| - 1] + [s[|s| - 1]];
      InsertSorted(s[|s| - 1], SortBy(s[..|s| - 1], key), key);
      Insert(s[|s| - 1], SortBy(s[..|s| - 1], key), key)
  }

  function Top(d: DisplayInfo): int { d.bounds.top }
  function Left(d: DisplayInfo): int { d.bounds.left }

  /** The order `showDisplays` lists displays in: sorted by top, then by left. */
  function ShowDisplaysOrder(ds: seq<DisplayInfo>): (r: seq<DisplayInfo>)
    ensures multiset(r) == multiset(ds)
    ensures SortedBy(r, Left)
  {
    SortBy(SortBy(ds, Top), Left)
  }

  /** `a` may come before `b`: further left, or on the same left edge and no lower. */
  predicate DesktopBefore(a: DisplayInfo, b: DisplayInfo) {
    Left(a) < Left(b) || (Left(a) == Left(b) && Top(a) <= Top(b))
  }

  /** Left to right, and top to bottom among displays sharing a left edge. */
  ghost predicate DesktopOrder(s: seq<DisplayInfo>) {
    forall i, j :: 0 <= i < j < |s| ==> DesktopBefore(s[i], s[j])
  }

  lemma DesktopOrderTail(s: seq<DisplayInfo>)
    requires |s| > 0 && DesktopOrder(s)
    ensures DesktopOrder(s[1..])
  {
    var tail := s[1..];
    forall i, j | 0 <= i < j < |tail| ensures DesktopBefore(tail[i], tail[j]) {
      assert tail[i] == s[i + 1] && tail[j] == s[j + 1];
    }
  }

  lemma DesktopOrderCons(h: DisplayInfo, t: seq<DisplayInfo>)
    requires DesktopOrder(t)
    requires forall k :: 0 <= k < |t| ==> DesktopBefore(h, t[k])
    ensures DesktopOrder([h] + t)
  {
    var r := [h] + t;
    forall i, j | 0 <= i < j < |r| ensures DesktopBefore(r[i], r[j]) {
      assert r[j] == t[j - 1];
      if i > 0 {
        assert r[i] == t[i - 1];
      }
    }
  }

  /** The head of `s`, lying no lower than `x` when they share a left edge,
      comes before everything in `s[1..]` with `x` inserted. */
  lemma HeadBeforeInserted(x: DisplayInfo, s: seq<DisplayInfo>)
    requires |s| > 0 && DesktopOrder(s) && Left(x) >= Left(s[0]) && Top(s[0]) <= Top(x)
    ensures forall k :: 0 <= k < |Insert(x, s[1..], Left)| ==> DesktopBefore(s[0], Insert(x, s[1..], Left)[k])
  {
    var tail := s[1..];
    var rest := Insert(x, tail, Left);
    forall k | 0 <= k < |rest| ensures DesktopBefore(s[0], rest[k]) {
      assert rest[k] in multiset(rest);
      if rest[k] != x {
        assert rest[k] in multiset(tail);
        var m :| 0 <= m < |tail| && tail[m] == rest[k];
        assert s[m + 1] == rest[k];
      }
    }
  }

  /** Inserting by left edge a display lying no higher than all others keeps
      the desktop order. */
  lemma {:induction false} InsertKeepsDesktopOrder(x: DisplayInfo, s: seq<DisplayInfo>)
    requires DesktopOrder(s)
    requires forall k :: 0 <= k < |s| ==> Top(s[k]) <= Top(x)
    ensures DesktopOrder(Insert(x, s, Left))
  {
    if |s| == 0 {
    } else if Left(x) >= Left(s[0]) {
      var tail := s[1..];
      DesktopOrderTail(s);
      assert forall k :: 0 <= k < |tail| ==> Top(tail[k]) <= Top(x) by {
        forall k | 0 <= k < |tail| ensures Top(tail[k]) <= Top(x) {
          assert tail[k] == s[k + 1];
        }
      }
      InsertKeepsDesktopOrder(x, tail);
      HeadBeforeInserted(x, s);
      DesktopOrderCons(s[0], Insert(x, tail, Left));
    } else {
      forall k | 0 <= k < |s| ensures DesktopBefore(x, s[k]) {
        if k > 0 {
          assert DesktopBefore(s[0], s[k]);
        }
      }
      DesktopOrderCons(x, s);
    }
  }

  /** Sorting a top-sorted list stably by left edge yields the desktop order. */
  lemma {:induction false} SortByLeftOfTopSorted(s: seq<DisplayInfo>)
    requires SortedBy(s, Top)
    ensures DesktopOrder(SortBy(s, Left))
  {
    if |s| > 0 {
      var init := s[..|s| - 1];
      SortByLeftOfTopSorted(init);
      var p := SortBy(init, Left);
      forall k | 0 <= k < |p| ensures Top(p[k]) <= Top(s[|s| - 1]) {
        assert p[k] in multiset(init);
        var m :| 0 <= m < |init| && init[m] == p[k];
      }
      InsertKeepsDesktopOrder(s[|s| - 1], p);
    }
  }

  /** The two sorts in `showDisplays` list displays left to right, and top to
      bottom among those sharing a left edge. */
  lemma ShowDisplaysDesktopOrder(ds: seq<DisplayInfo>)
    ensures DesktopOrder(ShowDisplaysOrder(ds))
  {
    SortByLeftOfTopSorted(SortBy(ds, Top));
  }
}
