/** Matchers: the window predicate that decides which actions apply to a window. */
module Matchers {
  import opened Results
  import opened Strings

  /** A tab as the host reports it; `url` may be absent or empty while the
      tab is still loading, in which case `pendingUrl` may hold it. */
  datatype Tab = Tab(url: Option<string>, pendingUrl: Option<string>)

  /** A browser window with its tabs populated. */
  datatype Window = Window(id: Option<int>, windowType: string, tabs: seq<Tab>)

  /** A `Matcher` after `from`: an absent `windowTypes` is the empty list and an
      absent `anyTabUrl` the empty string, both of which constrain nothing. */
  datatype Matcher = Matcher(
    windowTypes: seq<string>, anyTabUrl: string, minTabsNum: int, maxTabsNum: int, actions: seq<string>)

  const DefaultMinTabsNum := 0
  const DefaultMaxTabsNum := 1_000_000_000

  /** A parsed matcher object; absent keys are `None`. */
  datatype MatcherJson = MatcherJson(
    windowTypes: Option<seq<string>>, anyTabUrl: Option<string>,
    minTabsNum: Option<int>, maxTabsNum: Option<int>, actions: Option<seq<string>>)

  datatype MatchError =
    | ActionsNotDefined          // `from` on an object without `actions`
    | TabWithoutUrl              // a tab whose `url || pendingUrl` is undefined

  function OrElse<T>(o: Option<T>, d: T): T {
    if o.Some? then o.value else d
  }

  /** `Matcher.from`: fails when `actions` is missing; otherwise the given keys
      override the defaults. An array is truthy even when empty. */
  function MatcherFrom(json: MatcherJson): (r: Result<Matcher, MatchError>)
    ensures r.Err? <==> json.actions.None?
    ensures r.Err? ==> r.error == ActionsNotDefined
    ensures r.Ok? ==> r.value.actions == json.actions.value
    ensures r.Ok? ==> r.value.minTabsNum == (if json.minTabsNum.Some? then json.minTabsNum.value else 0)
    ensures r.Ok? ==> r.value.maxTabsNum == (if json.maxTabsNum.Some? then json.maxTabsNum.value else 1_000_000_000)
    ensures r.Ok? && json.windowTypes.Some? ==> r.value.windowTypes == json.windowTypes.value
    ensures r.Ok? && json.anyTabUrl.Some? ==> r.value.anyTabUrl == json.anyTabUrl.value
    ensures r.Ok? && json.windowTypes.None? ==> r.value.windowTypes == []
    ensures r.Ok? && json.anyTabUrl.None? ==> r.value.anyTabUrl == ""
  {
    if json.actions.None? then Err(ActionsNotDefined)
    else Ok(Matcher(OrElse(json.windowTypes, []), OrElse(json.anyTabUrl, ""),
                    OrElse(json.minTabsNum, DefaultMinTabsNum), OrElse(json.maxTabsNum, DefaultMaxTabsNum),
                    json.actions.value))
  }

  /** `tab.url || tab.pendingUrl`: the url unless it is absent or empty. */
  function TabUrl(t: Tab): (u: Option<string>)
    ensures t.url.Some? && t.url.value != "" ==> u == t.url
    ensures (t.url.None? || t.url.value == "") ==> u == t.pendingUrl
  {
    if t.url.Some? && t.url.value != "" then t.url else t.pendingUrl
  }

  /** The tab's url, lower-cased, contains `needle`. */
  predicate TabContains(t: Tab, needle: string) {
    TabUrl(t).Some? && Includes(ToLower(TabUrl(t).value), needle)
  }

  /** `tabs.some(...)` of the url check. It stops at the first tab that
      contains the needle; a tab reached before that without any url throws. */
  function AnyTabContains(tabs: seq<Tab>, needle: string): (r: Result<bool, MatchError>)
    ensures r == Ok(true) <==>
      exists i :: 0 <= i < |tabs| && TabContains(tabs[i], needle) &&
        forall j :: 0 <= j < i ==> TabUrl(tabs[j]).Some?
    ensures r == Ok(false) <==>
      forall i :: 0 <= i < |tabs| ==> TabUrl(tabs[i]).Some? && !TabContains(tabs[i], needle)
    ensures r.Err? ==> r.error == TabWithoutUrl && exists i :: 0 <= i < |tabs| && TabUrl(tabs[i]).None?
  {
    if |tabs| == 0 then Ok(false)
    else if TabUrl(tabs[0]).None? then Err(TabWithoutUrl)
    else if Includes(ToLower(TabUrl(tabs[0]).value), needle) then Ok(true)
    else
      var rest := AnyTabContains(tabs[1..], needle);
      assert forall i :: 1 <= i < |tabs| ==> tabs[i] == tabs[1..][i - 1];
      if rest == Ok(true) then
        var k :| 0 <= k < |tabs[1..]| && TabContains(tabs[1..][k], needle) &&
                 forall j :: 0 <= j < k ==> TabUrl(tabs[1..][j]).Some?;
        assert forall j :: 0 <= j < k + 1 ==> TabUrl(tabs[j]).Some? by {
          forall j | 0 <= j < k + 1 ensures TabUrl(tabs[j]).Some? {
            if j > 0 { assert tabs[j] == tabs[1..][j - 1]; }
          }
        }
        assert TabContains(tabs[k + 1], needle);
        rest
      else
        rest
  }

  /** The window's type is listed, or no type is listed. */
  predicate TypeAccepted(m: Matcher, w: Window) {
    |m.windowTypes| == 0 || w.windowType in m.windowTypes
  }

  /** No url is required, or some tab's url contains it, both lower-cased. */
  predicate UrlAccepted(m: Matcher, w: Window) {
    m.anyTabUrl == "" || exists i :: 0 <= i < |w.tabs| && TabContains(w.tabs[i], ToLower(m.anyTabUrl))
  }

  /** The tab count lies in [minTabsNum, maxTabsNum]. */
  predicate CountAccepted(m: Matcher, w: Window) {
    m.minTabsNum <= |w.tabs| <= m.maxTabsNum
  }

  /** Every tab has a url or a pending url, so the url check cannot throw. */
  predicate AllTabsHaveUrl(w: Window) {
    forall i :: 0 <= i < |w.tabs| ==> TabUrl(w.tabs[i]).Some?
  }

  /** `Matcher.matches`: the type check, then the url check, then the tab-count
      range. Only the url check can throw. */
  function Matches(m: Matcher, w: Window): (r: Result<bool, MatchError>)
    ensures r == Ok(true) ==> TypeAccepted(m, w) && UrlAccepted(m, w) && CountAccepted(m, w)
    ensures (m.anyTabUrl == "" || AllTabsHaveUrl(w)) ==>
      r == Ok(TypeAccepted(m, w) && UrlAccepted(m, w) && CountAccepted(m, w))
    ensures r.Err? ==> r.error == TabWithoutUrl && m.anyTabUrl != "" && TypeAccepted(m, w) && !AllTabsHaveUrl(w)
    ensures !TypeAccepted(m, w) ==> r == Ok(false)
  {
    if |m.windowTypes| > 0 && w.windowType !in m.windowTypes then Ok(false)
    else if m.anyTabUrl != "" then
      var any :- AnyTabContains(w.tabs, ToLower(m.anyTabUrl));
      if !any then Ok(false)
      else Ok(m.minTabsNum <= |w.tabs| && |w.tabs| <= m.maxTabsNum)
    else Ok(m.minTabsNum <= |w.tabs| && |w.tabs| <= m.maxTabsNum)
  }

  /** A matcher built from an object holding only `actions` matches every window
      with at most 1e9 tabs. */
  lemma CatchAllMatcher(actions: seq<string>, w: Window)
    ensures var m := MatcherFrom(MatcherJson(None, None, None, None, Some(actions)));
      m.Ok? && Matches(m.value, w) == Ok(|w.tabs| <= 1_000_000_000)
  {
  }

  /** `m2` constrains at least as much as `m1`: its listed types are among
      `m1`'s (and there are some when `m1` lists any), it asks for the same url
      when `m1` asks for one, and its tab range is inside `m1`'s. */
  predicate Tightens(m2: Matcher, m1: Matcher) {
    (|m1.windowTypes| == 0 || (|m2.windowTypes| > 0 && forall t :: t in m2.windowTypes ==> t in m1.windowTypes)) &&
    (m1.anyTabUrl == "" || m2.anyTabUrl == m1.anyTabUrl) &&
    m1.minTabsNum <= m2.minTabsNum && m2.maxTabsNum <= m1.maxTabsNum
  }

  /** `matches` is a conjunction of checks, so adding or tightening a
      constraint never enlarges the set of matched windows. */
  lemma TighterMatchesFewer(m1: Matcher, m2: Matcher, w: Window)
    requires Tightens(m2, m1)
    requires Matches(m2, w) == Ok(true)
    ensures Matches(m1, w) == Ok(true)
  {
    if m1.anyTabUrl != "" {
      assert AnyTabContains(w.tabs, ToLower(m2.anyTabUrl)) == Ok(true);
    }
  }

  /** The url check ignores case in the configured url as well as in the tabs' urls. */
  lemma UrlCaseIgnored(m: Matcher, w: Window)
    ensures Matches(m.(anyTabUrl := ToLower(m.anyTabUrl)), w) == Matches(m, w)
  {
    ToLowerIdempotent(m.anyTabUrl);
    assert (ToLower(m.anyTabUrl) == "") == (m.anyTabUrl == "");
  }
}
