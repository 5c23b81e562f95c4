/** Worker: the pass that matches windows against matchers, merges the updates
    of the matched actions and schedules them, plus the single-action entry
    point. Host calls are returned as values: the pass yields the list of
    scheduled `chrome.windows.update` calls. */
module Worker {
  import opened Results
  import opened Sequences
  import opened Displays
  import opened Positions
  import opened Actions
  import opened Matchers

  /** `UPDATE_TIMEOUT_MS`: the stagger between two scheduled updates. */
  const UpdateTimeoutMs := 5

  /** One `setTimeout(chrome.windows.update, delayMs, windowId, update)`. */
  datatype Scheduled = Scheduled(delayMs: nat, windowId: int, update: WindowsUpdate)

  datatype PassError =
    | MatchThrew                      // `matches` threw on a tab with neither url nor pending url
    | ActionUndefined(windowId: int)  // an ordered window id has no update ("bug in the code")
    | MapNotDrained(remaining: nat)   // updates left over after scheduling ("bug in the code")
    | WindowNotFound(windowId: int)   // `updateWindowWithAllActions` on a missing window

  /** `createUpdate(displays)` of each action; it is not part of this model
      and is a parameter: `None` stands for its `null`. */
  type CreateUpdate = (Action, seq<Display>) -> Option<WindowsUpdate>

  /** Index `i` holds the last action with id `k`. */
  ghost predicate LastWithId(actions: seq<Action>, i: int, k: string) {
    0 <= i < |actions| && actions[i].id == k && forall j :: i < j < |actions| ==> actions[j].id != k
  }

  lemma LastWithIdSnoc(actions: seq<Action>, i: int, k: string)
    requires |actions| > 0 && k != actions[|actions| - 1].id
    ensures LastWithId(actions, i, k) <==> i < |actions| - 1 && LastWithId(actions[..|actions| - 1], i, k)
  {
  }

  /** The action map of the pass: `new Map(actions.map((a) => [a.id, a.createUpdate(displays)]))`
      with the `null` entries deleted. For a repeated id the last action wins,
      before the `null` check. */
  function ActionUpdates(actions: seq<Action>, displays: seq<Display>, createUpdate: CreateUpdate): (r: map<string, WindowsUpdate>)
    ensures forall k :: k in r <==> exists i :: LastWithId(actions, i, k) && createUpdate(actions[i], displays).Some?
    ensures forall k :: k in r ==> exists i :: LastWithId(actions, i, k) && createUpdate(actions[i], displays) == Some(r[k])
  {
    if |actions| == 0 then map[]
    else
      var n := |actions| - 1;
      var a := actions[n];
      var rest := ActionUpdates(actions[..n], displays, createUpdate);
      assert LastWithId(actions, n, a.id);
      assert forall i :: LastWithId(actions, i, a.id) ==> i == n;
      forall k, i | k != a.id
        ensures LastWithId(actions, i, k) <==> i < n && LastWithId(actions[..n], i, k)
      {
        LastWithIdSnoc(actions, i, k);
      }
      var u := createUpdate(a, displays);
      if u.Some? then rest[a.id := u.value] else rest - {a.id}
  }

  /** Every update the action map holds is non-empty when `createUpdate`
      never returns an empty object. `createUpdate` is not part of this model;
      the non-empty objects `prepareUpdate` builds satisfy this. */
  ghost predicate NonEmptyUpdates(actions: seq<Action>, displays: seq<Display>, createUpdate: CreateUpdate) {
    forall i :: 0 <= i < |actions| && createUpdate(actions[i], displays).Some? ==>
      !createUpdate(actions[i], displays).value.IsEmpty()
  }

  lemma ActionUpdatesNonEmpty(actions: seq<Action>, displays: seq<Display>, createUpdate: CreateUpdate, k: string)
    requires NonEmptyUpdates(actions, displays, createUpdate)
    requires k in ActionUpdates(actions, displays, createUpdate)
    ensures !ActionUpdates(actions, displays, createUpdate)[k].IsEmpty()
  {
  }

  /** `matcher.actions.filter((a) => actions.has(a))`. */
  function PruneActions(ids: seq<string>, updates: map<string, WindowsUpdate>): (r: seq<string>)
    ensures forall x :: x in r <==> x in ids && x in updates
    ensures IsSubsequence(r, ids)
  {
    if |ids| == 0 then []
    else
      var rest := PruneActions(ids[1..], updates);
      SubsequenceCons(ids[0], rest, ids[1..]);
      SubsequenceSkip(ids[0], rest, ids[1..]);
      assert [ids[0]] + ids[1..] == ids;
      if ids[0] in updates then [ids[0]] + rest else rest
  }

  /** A matcher with its action list pruned to the ids that have an update. */
  function Pruned(m: Matcher, updates: map<string, WindowsUpdate>): Matcher {
    m.(actions := PruneActions(m.actions, updates))
  }

  /** The matchers of the pass: each matcher's actions pruned, then the
      matchers left with no action dropped; order is kept. */
  function PruneMatchers(ms: seq<Matcher>, updates: map<string, WindowsUpdate>): (r: seq<Matcher>)
    ensures forall i :: 0 <= i < |r| ==> |r[i].actions| > 0
    ensures forall i, a :: 0 <= i < |r| && a in r[i].actions ==> a in updates
    ensures forall m :: m in r <==> exists j :: 0 <= j < |ms| && m == Pruned(ms[j], updates) && |m.actions| > 0
    ensures |r| <= |ms|
  {
    if |ms| == 0 then []
    else
      var p := Pruned(ms[0], updates);
      var rest := PruneMatchers(ms[1..], updates);
      var r := if |p.actions| > 0 then [p] + rest else rest;
      forall m | m in r
        ensures exists j :: 0 <= j < |ms| && m == Pruned(ms[j], updates) && |m.actions| > 0
      {
        if m != p || |p.actions| == 0 {
          assert m in rest;
          var j :| 0 <= j < |ms[1..]| && m == Pruned(ms[1..][j], updates) && |m.actions| > 0;
          assert ms[1..][j] == ms[j + 1];
        }
      }
      forall j | 0 <= j < |ms| && |Pruned(ms[j], updates).actions| > 0
        ensures Pruned(ms[j], updates) in r
      {
        if j > 0 {
          assert ms[1..][j - 1] == ms[j];
        }
      }
      r
  }

  /** Pruning distributes over concatenation, so surviving matchers keep their order. */
  lemma {:induction false} PruneMatchersAppend(a: seq<Matcher>, b: seq<Matcher>, updates: map<string, WindowsUpdate>)
    ensures PruneMatchers(a + b, updates) == PruneMatchers(a, updates) + PruneMatchers(b, updates)
  {
    if |a| == 0 {
      assert a + b == b;
    } else {
      assert (a + b)[0] == a[0] && (a + b)[1..] == a[1..] + b;
      PruneMatchersAppend(a[1..], b, updates);
    }
  }

  /** The surviving matchers of a pass. */
  function Live(actions: seq<Action>, displays: seq<Display>, createUpdate: CreateUpdate, matchers: seq<Matcher>): seq<Matcher> {
    PruneMatchers(matchers, ActionUpdates(actions, displays, createUpdate))
  }

  /** `matches` returned true. */
  predicate Matched(m: Matcher, w: Window) {
    Matches(m, w) == Ok(true)
  }

  /** Some call of `matches` in the pass throws, which rejects the whole pass
      before anything is scheduled. Every window is checked against every
      surviving matcher. */
  predicate Crashes(live: seq<Matcher>, windows: seq<Window>) {
    exists i, j :: 0 <= i < |windows| && 0 <= j < |live| && Matches(live[j], windows[i]).Err?
  }

  /** `Object.assign` on one key: a present value overrides. */
  function MergeField<T>(a: Option<T>, b: Option<T>): Option<T> {
    if b.Some? then b else a
  }

  /** `Object.assign(a, b)`: every key present in `b` overrides `a`. */
  function Merge(a: WindowsUpdate, b: WindowsUpdate): (r: WindowsUpdate)
    ensures r.IsEmpty() <==> a.IsEmpty() && b.IsEmpty()
    ensures b.IsEmpty() ==> r == a
  {
    WindowsUpdate(MergeField(a.left, b.left), MergeField(a.top, b.top),
                  MergeField(a.width, b.width), MergeField(a.height, b.height),
                  MergeField(a.state, b.state), MergeField(a.focused, b.focused))
  }

  /** Successive `Object.assign`s into `{}`, left to right. */
  function MergeAll(us: seq<WindowsUpdate>): (r: WindowsUpdate)
    ensures r.IsEmpty() <==> forall i :: 0 <= i < |us| ==> us[i].IsEmpty()
  {
    if |us| == 0 then NoUpdate
    else
      var n := |us| - 1;
      assert forall i :: 0 <= i < n ==> us[..n][i] == us[i];
      Merge(MergeAll(us[..n]), us[n])
  }

  /** The last present value in a list of optional values. */
  function LastSome<T>(xs: seq<Option<T>>): (r: Option<T>)
    ensures r.Some? <==> exists i :: 0 <= i < |xs| && xs[i].Some?
    ensures r.Some? ==> exists i :: LastPresent(xs, i) && xs[i] == r
  {
    if |xs| == 0 then None
    else
      var n := |xs| - 1;
      var rest := LastSome(xs[..n]);
      assert forall i :: 0 <= i < n ==> xs[..n][i] == xs[i];
      if xs[n].Some? then
        assert LastPresent(xs, n);
        xs[n]
      else
        assert rest.Some? ==> exists i :: LastPresent(xs, i) && xs[i] == rest by {
          if rest.Some? {
            var i :| LastPresent(xs[..n], i) && xs[..n][i] == rest;
            assert LastPresent(xs, i);
          }
        }
        rest
  }

  /** `i` is the last position of `xs` holding a value. */
  ghost predicate LastPresent<T>(xs: seq<Option<T>>, i: int) {
    0 <= i < |xs| && xs[i].Some? && forall j :: i < j < |xs| ==> xs[j].None?
  }

  /** One key of every update in a list. */
  function Project<T>(us: seq<WindowsUpdate>, get: WindowsUpdate -> Option<T>): (r: seq<Option<T>>)
    ensures |r| == |us| && forall i :: 0 <= i < |us| ==> r[i] == get(us[i])
  {
    seq(|us|, i requires 0 <= i < |us| => get(us[i]))
  }

  function LeftOf(u: WindowsUpdate): Option<int> { u.left }
  function TopOf(u: WindowsUpdate): Option<int> { u.top }
  function WidthOf(u: WindowsUpdate): Option<int> { u.width }
  function HeightOf(u: WindowsUpdate): Option<int> { u.height }
  function StateOf(u: WindowsUpdate): Option<string> { u.state }
  function FocusedOf(u: WindowsUpdate): Option<bool> { u.focused }

  /** The merge is field by field and a later field overrides an earlier one:
      each field of the merged update is the last value given for it. */
  lemma {:induction false} MergeAllLastWins(us: seq<WindowsUpdate>)
    ensures MergeAll(us).left == LastSome(Project(us, LeftOf))
    ensures MergeAll(us).top == LastSome(Project(us, TopOf))
    ensures MergeAll(us).width == LastSome(Project(us, WidthOf))
    ensures MergeAll(us).height == LastSome(Project(us, HeightOf))
    ensures MergeAll(us).state == LastSome(Project(us, StateOf))
    ensures MergeAll(us).focused == LastSome(Project(us, FocusedOf))
  {
    if |us| > 0 {
      var n := |us| - 1;
      MergeAllLastWins(us[..n]);
      ProjectPrefix(us, n, LeftOf);
      ProjectPrefix(us, n, TopOf);
      ProjectPrefix(us, n, WidthOf);
      ProjectPrefix(us, n, HeightOf);
      ProjectPrefix(us, n, StateOf);
      ProjectPrefix(us, n, FocusedOf);
    }
  }

  lemma ProjectPrefix<T>(us: seq<WindowsUpdate>, n: nat, get: WindowsUpdate -> Option<T>)
    requires n <= |us|
    ensures Project(us[..n], get) == Project(us, get)[..n]
  {
  }

  lemma ProjectAppend<T>(a: seq<WindowsUpdate>, b: seq<WindowsUpdate>, get: WindowsUpdate -> Option<T>)
    ensures Project(a + b, get) == Project(a, get) + Project(b, get)
  {
    var l, r := Project(a + b, get), Project(a, get) + Project(b, get);
    assert |l| == |r|;
    forall i | 0 <= i < |l| ensures l[i] == r[i] {
      if i < |a| {
        assert (a + b)[i] == a[i];
      } else {
        assert (a + b)[i] == b[i - |a|];
      }
    }
  }

  /** The last present value of a concatenation is the back part's, if it has one. */
  lemma {:induction false} LastSomeAppend<T>(a: seq<Option<T>>, b: seq<Option<T>>)
    ensures LastSome(a + b) == if LastSome(b).Some? then LastSome(b) else LastSome(a)
    decreases |b|
  {
    if |b| == 0 {
      assert a + b == a;
    } else {
      var b' := b[..|b| - 1];
      AppendInit(a, b);
      LastSomeStep(a + b);
      LastSomeStep(b);
      LastSomeAppend(a, b');
    }
  }

  lemma LastSomeStep<T>(xs: seq<Option<T>>)
    requires |xs| > 0
    ensures LastSome(xs) == if xs[|xs| - 1].Some? then xs[|xs| - 1] else LastSome(xs[..|xs| - 1])
  {
  }

  lemma AppendInit<T>(a: seq<T>, b: seq<T>)
    requires |b| > 0
    ensures (a + b)[..|a + b| - 1] == a + b[..|b| - 1]
    ensures (a + b)[|a + b| - 1] == b[|b| - 1]
  {
  }

  /** Every key of the update is present, as in the update of an action with
      both a column and a row. */
  predicate Complete(u: WindowsUpdate) {
    u.left.Some? && u.top.Some? && u.width.Some? && u.height.Some? && u.state.Some? && u.focused.Some?
  }

  /** When the last merged update sets every key, the merge is that update:
      the last-declared matching action then decides the window's geometry alone. */
  lemma CompleteLastUpdateWins(us: seq<WindowsUpdate>)
    requires |us| > 0 && Complete(us[|us| - 1])
    ensures MergeAll(us) == us[|us| - 1]
  {
  }

  /** An action with both a column and a row prepares a complete update. */
  lemma PreparedUpdateComplete(a: ActionWithDisplay)
    requires a.column.Some? && a.row.Some? && PrepareUpdate(a).Ok?
    ensures Complete(PrepareUpdate(a).value)
  {
  }

  /** `actions.get(name)`; a missing name contributes nothing to `Object.assign`. */
  function Lookup(updates: map<string, WindowsUpdate>, name: string): WindowsUpdate {
    if name in updates then updates[name] else NoUpdate
  }

  /** The updates of one matcher's actions, in its action order. */
  function MatcherUpdates(m: Matcher, updates: map<string, WindowsUpdate>): (r: seq<WindowsUpdate>)
    ensures |r| == |m.actions|
    ensures forall k :: 0 <= k < |r| ==> r[k] == Lookup(updates, m.actions[k])
  {
    seq(|m.actions|, k requires 0 <= k < |m.actions| => Lookup(updates, m.actions[k]))
  }

  /** The updates merged into one window: for a window with an id, those of
      every action of every matching matcher, in matcher order and then in
      action order; a window without an id gets none. */
  function Contributions(w: Window, live: seq<Matcher>, updates: map<string, WindowsUpdate>): (r: seq<WindowsUpdate>)
    ensures w.id.None? ==> r == []
    ensures forall u :: u in r ==> (w.id.Some? &&
      exists j, k :: 0 <= j < |live| && Matched(live[j], w) && 0 <= k < |live[j].actions| && u == Lookup(updates, live[j].actions[k]))
    ensures forall j, k :: w.id.Some? && 0 <= j < |live| && Matched(live[j], w) && 0 <= k < |live[j].actions| ==>
      Lookup(updates, live[j].actions[k]) in r
    ensures w.id.Some? && |live| > 0 ==>
      r == Contributions(w, live[..|live| - 1], updates) +
        (if Matched(live[|live| - 1], w) then MatcherUpdates(live[|live| - 1], updates) else [])
  {
    if w.id.None? || |live| == 0 then []
    else
      var n := |live| - 1;
      var rest := Contributions(w, live[..n], updates);
      var mine := if Matched(live[n], w) then MatcherUpdates(live[n], updates) else [];
      ContributionsStep(w, live, updates, live[..n], rest, mine);
      rest + mine
  }

  /** The membership step of `Contributions`. */
  lemma ContributionsStep(w: Window, live: seq<Matcher>, updates: map<string, WindowsUpdate>,
                          prefix: seq<Matcher>, rest: seq<WindowsUpdate>, mine: seq<WindowsUpdate>)
    requires w.id.Some? && |live| > 0 && prefix == live[..|live| - 1]
    requires forall u :: u in rest ==>
      exists j, k :: 0 <= j < |prefix| && Matched(prefix[j], w) && 0 <= k < |prefix[j].actions| &&
        u == Lookup(updates, prefix[j].actions[k])
    requires forall j, k :: 0 <= j < |prefix| && Matched(prefix[j], w) && 0 <= k < |prefix[j].actions| ==>
      Lookup(updates, prefix[j].actions[k]) in rest
    requires mine == if Matched(live[|live| - 1], w) then MatcherUpdates(live[|live| - 1], updates) else []
    ensures forall u :: u in rest + mine ==>
      exists j, k :: 0 <= j < |live| && Matched(live[j], w) && 0 <= k < |live[j].actions| && u == Lookup(updates, live[j].actions[k])
    ensures forall j, k :: 0 <= j < |live| && Matched(live[j], w) && 0 <= k < |live[j].actions| ==>
      Lookup(updates, live[j].actions[k]) in rest + mine
  {
    var n := |live| - 1;
    assert forall j :: 0 <= j < n ==> prefix[j] == live[j];
    forall u | u in rest + mine
      ensures exists j, k :: 0 <= j < |live| && Matched(live[j], w) && 0 <= k < |live[j].actions| && u == Lookup(updates, live[j].actions[k])
    {
      if u in rest {
        var j, k :| 0 <= j < n && Matched(prefix[j], w) && 0 <= k < |prefix[j].actions| && u == Lookup(updates, prefix[j].actions[k]);
        assert live[j] == prefix[j];
      } else {
        var k :| 0 <= k < |mine| && mine[k] == u;
        assert Matched(live[n], w) && u == Lookup(updates, live[n].actions[k]);
      }
    }
    forall j, k | 0 <= j < |live| && Matched(live[j], w) && 0 <= k < |live[j].actions|
      ensures Lookup(updates, live[j].actions[k]) in rest + mine
    {
      if j < n {
        assert prefix[j] == live[j];
        assert Lookup(updates, prefix[j].actions[k]) in rest;
      } else {
        assert mine[k] == Lookup(updates, live[j].actions[k]);
      }
    }
  }

  /** The update object a window ends up with. */
  function WindowUpdate(w: Window, live: seq<Matcher>, updates: map<string, WindowsUpdate>): WindowsUpdate {
    MergeAll(Contributions(w, live, updates))
  }

  /** Action `k` of matcher `m` sets the key `get`. */
  ghost predicate SetsAt<T>(m: Matcher, updates: map<string, WindowsUpdate>, get: WindowsUpdate -> Option<T>, k: int) {
    0 <= k < |m.actions| && get(Lookup(updates, m.actions[k])).Some?
  }

  /** Action `k` of matcher `j` sets the key `get` for window `w`, and no
      action after it (later in the same matcher, or in a later matching
      matcher) sets that key. */
  ghost predicate LastSetter<T>(w: Window, live: seq<Matcher>, updates: map<string, WindowsUpdate>,
                                get: WindowsUpdate -> Option<T>, j: int, k: int) {
    && 0 <= j < |live| && Matched(live[j], w) && SetsAt(live[j], updates, get, k)
    && (forall k2 :: k < k2 ==> !SetsAt(live[j], updates, get, k2))
    && (forall j2, k2 :: (j < j2 < |live| && Matched(live[j2], w)) ==> !SetsAt(live[j2], updates, get, k2))
  }

  /** No action of a matching matcher sets the key `get` for window `w`. */
  ghost predicate NoSetter<T>(w: Window, live: seq<Matcher>, updates: map<string, WindowsUpdate>,
                              get: WindowsUpdate -> Option<T>) {
    forall j, k :: (0 <= j < |live| && Matched(live[j], w)) ==> !SetsAt(live[j], updates, get, k)
  }

  /** `v` is the value a window's key ends with when the matchers' actions are
      applied one after another: absent when the window has no id or nothing
      sets the key, otherwise the value of its last setter. */
  ghost predicate FromLastSetter<T>(w: Window, live: seq<Matcher>, updates: map<string, WindowsUpdate>,
                                    get: WindowsUpdate -> Option<T>, v: Option<T>) {
    && (v.None? <==> w.id.None? || NoSetter(w, live, updates, get))
    && (v.Some? ==> (w.id.Some? &&
          exists j, k :: LastSetter(w, live, updates, get, j, k) && get(Lookup(updates, live[j].actions[k])) == v))
  }

  /** The key `get` of the updates of one matcher's actions. */
  lemma MatcherKeys<T>(m: Matcher, updates: map<string, WindowsUpdate>, get: WindowsUpdate -> Option<T>)
    ensures var xm := Project(MatcherUpdates(m, updates), get);
      |xm| == |m.actions| && forall k :: 0 <= k < |xm| ==> (xm[k] == get(Lookup(updates, m.actions[k])) && (xm[k].Some? <==> SetsAt(m, updates, get, k)))
  {
  }

  /** The last present key among a window's contributions is that of the last
      matching (matcher, action) pair that sets it. */
  lemma {:induction false} ContributionsLastSetter<T>(w: Window, live: seq<Matcher>, updates: map<string, WindowsUpdate>,
                                                      get: WindowsUpdate -> Option<T>)
    ensures FromLastSetter(w, live, updates, get, LastSome(Project(Contributions(w, live, updates), get)))
  {
    if w.id.Some? && |live| > 0 {
      var n := |live| - 1;
      var rest := Contributions(w, live[..n], updates);
      var mine := if Matched(live[n], w) then MatcherUpdates(live[n], updates) else [];
      assert Contributions(w, live, updates) == rest + mine;
      ProjectAppend(rest, mine, get);
      LastSomeAppend(Project(rest, get), Project(mine, get));
      if Matched(live[n], w) {
        MatcherKeys(live[n], updates, get);
      }
      if LastSome(Project(mine, get)).Some? {
        LastMatcherSets(w, live, updates, get);
      } else {
        ContributionsLastSetter(w, live[..n], updates, get);
        PrefixSetters(w, live, updates, get);
      }
    }
  }

  /** When the last matcher matches and sets the key, its last setting action
      decides the key. */
  lemma LastMatcherSets<T>(w: Window, live: seq<Matcher>, updates: map<string, WindowsUpdate>,
                           get: WindowsUpdate -> Option<T>)
    requires w.id.Some? && |live| > 0 && Matched(live[|live| - 1], w)
    requires LastSome(Project(MatcherUpdates(live[|live| - 1], updates), get)).Some?
    ensures FromLastSetter(w, live, updates, get, LastSome(Project(MatcherUpdates(live[|live| - 1], updates), get)))
  {
    var n := |live| - 1;
    var xm := Project(MatcherUpdates(live[n], updates), get);
    MatcherKeys(live[n], updates, get);
    var k :| LastPresent(xm, k) && xm[k] == LastSome(xm);
    assert LastSetter(w, live, updates, get, n, k);
    assert !NoSetter(w, live, updates, get) by {
      assert SetsAt(live[n], updates, get, k);
    }
  }

  /** When the last matcher sets nothing, the setters of `live` are those of
      all matchers but the last. */
  lemma PrefixSetters<T>(w: Window, live: seq<Matcher>, updates: map<string, WindowsUpdate>,
                         get: WindowsUpdate -> Option<T>)
    requires |live| > 0
    requires Matched(live[|live| - 1], w) ==>
      LastSome(Project(MatcherUpdates(live[|live| - 1], updates), get)).None?
    ensures NoSetter(w, live[..|live| - 1], updates, get) <==> NoSetter(w, live, updates, get)
    ensures forall j, k :: LastSetter(w, live[..|live| - 1], updates, get, j, k) ==> LastSetter(w, live, updates, get, j, k)
  {
    var n := |live| - 1;
    var prefix := live[..n];
    assert forall j :: 0 <= j < n ==> prefix[j] == live[j];
    assert forall k :: Matched(live[n], w) ==> !SetsAt(live[n], updates, get, k) by {
      forall k | Matched(live[n], w) ensures !SetsAt(live[n], updates, get, k) {
        MatcherKeys(live[n], updates, get);
        if 0 <= k < |live[n].actions| {
          var xm := Project(MatcherUpdates(live[n], updates), get);
          assert xm[k].None?;
        }
      }
    }
    forall j, k | LastSetter(w, prefix, updates, get, j, k) ensures LastSetter(w, live, updates, get, j, k) {
      forall j2, k2 | j < j2 < |live| && Matched(live[j2], w) ensures !SetsAt(live[j2], updates, get, k2) {
        if j2 < n {
          assert prefix[j2] == live[j2];
        }
      }
    }
    if NoSetter(w, prefix, updates, get) {
      forall j, k | 0 <= j < |live| && Matched(live[j], w) ensures !SetsAt(live[j], updates, get, k) {
        if j < n {
          assert prefix[j] == live[j];
        }
      }
    }
  }

  /** Each key of a window's update is the value set by the last matching
      (matcher, action) pair that sets it, in matcher order and then in
      action order; a key no matching action sets is absent. */
  lemma WindowUpdateLastSetterWins(w: Window, live: seq<Matcher>, updates: map<string, WindowsUpdate>)
    ensures FromLastSetter(w, live, updates, LeftOf, WindowUpdate(w, live, updates).left)
    ensures FromLastSetter(w, live, updates, TopOf, WindowUpdate(w, live, updates).top)
    ensures FromLastSetter(w, live, updates, WidthOf, WindowUpdate(w, live, updates).width)
    ensures FromLastSetter(w, live, updates, HeightOf, WindowUpdate(w, live, updates).height)
    ensures FromLastSetter(w, live, updates, StateOf, WindowUpdate(w, live, updates).state)
    ensures FromLastSetter(w, live, updates, FocusedOf, WindowUpdate(w, live, updates).focused)
  {
    var cs := Contributions(w, live, updates);
    MergeAllLastWins(cs);
    ContributionsLastSetter(w, live, updates, LeftOf);
    ContributionsLastSetter(w, live, updates, TopOf);
    ContributionsLastSetter(w, live, updates, WidthOf);
    ContributionsLastSetter(w, live, updates, HeightOf);
    ContributionsLastSetter(w, live, updates, StateOf);
    ContributionsLastSetter(w, live, updates, FocusedOf);
  }

  /** A key has one last setter. */
  lemma LastSetterUnique<T>(w: Window, live: seq<Matcher>, updates: map<string, WindowsUpdate>,
                            get: WindowsUpdate -> Option<T>, j: int, k: int, j': int, k': int)
    requires LastSetter(w, live, updates, get, j, k) && LastSetter(w, live, updates, get, j', k')
    ensures j == j' && k == k'
  {
    assert SetsAt(live[j], updates, get, k) && SetsAt(live[j'], updates, get, k');
  }

  /** The value a key ends with is that of any last setter. */
  lemma FromLastSetterValue<T>(w: Window, live: seq<Matcher>, updates: map<string, WindowsUpdate>,
                               get: WindowsUpdate -> Option<T>, v: Option<T>, j: int, k: int)
    requires w.id.Some? && FromLastSetter(w, live, updates, get, v) && LastSetter(w, live, updates, get, j, k)
    ensures v == get(Lookup(updates, live[j].actions[k]))
  {
    assert !NoSetter(w, live, updates, get) by {
      assert SetsAt(live[j], updates, get, k);
    }
    var j', k' :| LastSetter(w, live, updates, get, j', k') && get(Lookup(updates, live[j'].actions[k'])) == v;
    LastSetterUnique(w, live, updates, get, j, k, j', k');
  }

  /** When the last matching matcher's last action sets every key, as an
      action with both a column and a row does, that action alone decides the
      window's update. */
  lemma LastCompleteActionDecides(w: Window, live: seq<Matcher>, updates: map<string, WindowsUpdate>, j: int)
    requires w.id.Some? && 0 <= j < |live| && Matched(live[j], w) && |live[j].actions| > 0
    requires forall j2 :: j < j2 < |live| ==> !Matched(live[j2], w)
    requires Complete(Lookup(updates, live[j].actions[|live[j].actions| - 1]))
    ensures WindowUpdate(w, live, updates) == Lookup(updates, live[j].actions[|live[j].actions| - 1])
  {
    var k := |live[j].actions| - 1;
    var u := WindowUpdate(w, live, updates);
    WindowUpdateLastSetterWins(w, live, updates);
    LastActionSetsKey(w, live, updates, LeftOf, u.left, j);
    LastActionSetsKey(w, live, updates, TopOf, u.top, j);
    LastActionSetsKey(w, live, updates, WidthOf, u.width, j);
    LastActionSetsKey(w, live, updates, HeightOf, u.height, j);
    LastActionSetsKey(w, live, updates, StateOf, u.state, j);
    LastActionSetsKey(w, live, updates, FocusedOf, u.focused, j);
  }

  /** A key set by the last action of the last matching matcher ends with that value. */
  lemma LastActionSetsKey<T>(w: Window, live: seq<Matcher>, updates: map<string, WindowsUpdate>,
                             get: WindowsUpdate -> Option<T>, v: Option<T>, j: int)
    requires w.id.Some? && 0 <= j < |live| && Matched(live[j], w) && |live[j].actions| > 0
    requires forall j2 :: j < j2 < |live| ==> !Matched(live[j2], w)
    requires get(Lookup(updates, live[j].actions[|live[j].actions| - 1])).Some?
    requires FromLastSetter(w, live, updates, get, v)
    ensures v == get(Lookup(updates, live[j].actions[|live[j].actions| - 1]))
  {
    var k := |live[j].actions| - 1;
    assert SetsAt(live[j], updates, get, k);
    assert forall k2 :: k < k2 ==> !SetsAt(live[j], updates, get, k2);
    assert forall j2, k2 :: (j < j2 < |live| && Matched(live[j2], w)) ==> !SetsAt(live[j2], updates, get, k2);
    FromLastSetterValue(w, live, updates, get, v, j, k);
  }

  /** The surviving matchers have actions, and all of them have non-empty updates. */
  ghost predicate WellPruned(live: seq<Matcher>, updates: map<string, WindowsUpdate>) {
    (forall j :: 0 <= j < |live| ==> |live[j].actions| > 0) &&
    (forall j, a :: 0 <= j < |live| && a in live[j].actions ==> a in updates) &&
    (forall a :: a in updates ==> !updates[a].IsEmpty())
  }

  /** A window gets a non-empty update iff it has an id and some surviving
      matcher matches it. */
  lemma {:induction false} WindowUpdateNonEmpty(w: Window, live: seq<Matcher>, updates: map<string, WindowsUpdate>)
    requires WellPruned(live, updates)
    ensures !WindowUpdate(w, live, updates).IsEmpty() <==> w.id.Some? && exists j :: 0 <= j < |live| && Matched(live[j], w)
  {
    var cs := Contributions(w, live, updates);
    if w.id.Some? && exists j :: 0 <= j < |live| && Matched(live[j], w) {
      var j :| 0 <= j < |live| && Matched(live[j], w);
      assert live[j].actions[0] in live[j].actions;
      var u := Lookup(updates, live[j].actions[0]);
      assert u in cs;
      var i :| 0 <= i < |cs| && cs[i] == u;
    } else {
      assert forall i :: 0 <= i < |cs| ==> cs[i] in cs;
    }
  }

  /** `count` copies of `x`. */
  function Repeat(x: int, count: nat): (r: seq<int>)
    ensures |r| == count && forall i :: 0 <= i < count ==> r[i] == x
  {
    seq(count, i => x)
  }

  /** `orderArray[i]` for one matcher: each matched window's id, once per
      action of the matcher, in window order. */
  function Column(ws: seq<Window>, m: Matcher): (r: seq<int>)
    ensures forall x :: x in r <==> |m.actions| > 0 && exists i :: 0 <= i < |ws| && ws[i].id == Some(x) && Matched(m, ws[i])
  {
    if |ws| == 0 then []
    else
      var n := |ws| - 1;
      var rest := Column(ws[..n], m);
      assert forall i :: 0 <= i < n ==> ws[..n][i] == ws[i];
      var mine := if ws[n].id.Some? && Matched(m, ws[n]) then Repeat(ws[n].id.value, |m.actions|) else [];
      assert forall x :: x in mine <==> |m.actions| > 0 && ws[n].id == Some(x) && Matched(m, ws[n]) by {
        if |mine| > 0 { assert mine[0] in mine; }
      }
      rest + mine
  }

  /** `orderArray`: one column per surviving matcher. */
  function OrderArray(ws: seq<Window>, live: seq<Matcher>): (r: seq<seq<int>>)
    ensures |r| == |live| && forall j :: 0 <= j < |live| ==> r[j] == Column(ws, live[j])
  {
    seq(|live|, j requires 0 <= j < |live| => Column(ws, live[j]))
  }

  /** `Array.from(new Set(orderArray.flat().reverse())).reverse()`. */
  function ScheduleOrder(ws: seq<Window>, live: seq<Matcher>): (r: seq<int>)
    ensures r == KeepLast(Flatten(OrderArray(ws, live)))
  {
    KeepLastIsReversedKeepFirst(Flatten(OrderArray(ws, live)));
    Reverse(KeepFirst(Reverse(Flatten(OrderArray(ws, live)))))
  }

  /** The ids that occur in `orderArray`: those of windows matched by some surviving matcher. */
  lemma {:induction false} OrderedIds(ws: seq<Window>, live: seq<Matcher>, x: int)
    requires forall j :: 0 <= j < |live| ==> |live[j].actions| > 0
    ensures x in ScheduleOrder(ws, live) <==>
      exists i, j :: 0 <= i < |ws| && 0 <= j < |live| && ws[i].id == Some(x) && Matched(live[j], ws[i])
  {
    var rows := OrderArray(ws, live);
    FlattenMember(rows, x);
    if x in Flatten(rows) {
      var j :| 0 <= j < |rows| && x in rows[j];
      var i :| 0 <= i < |ws| && ws[i].id == Some(x) && Matched(live[j], ws[i]);
    }
    if exists i, j :: 0 <= i < |ws| && 0 <= j < |live| && ws[i].id == Some(x) && Matched(live[j], ws[i]) {
      var i, j :| 0 <= i < |ws| && 0 <= j < |live| && ws[i].id == Some(x) && Matched(live[j], ws[i]);
      assert x in rows[j];
    }
  }

  /** `windowUpdateMap`: each window with a non-empty update under its id; a
      later window with the same id replaces an earlier one. */
  function UpdateMap(ws: seq<Window>, live: seq<Matcher>, updates: map<string, WindowsUpdate>): (r: map<int, WindowsUpdate>)
    ensures forall x :: x in r <==> exists i :: 0 <= i < |ws| && ws[i].id == Some(x) && !WindowUpdate(ws[i], live, updates).IsEmpty()
    ensures forall x :: x in r ==> exists i :: 0 <= i < |ws| && ws[i].id == Some(x) && r[x] == WindowUpdate(ws[i], live, updates)
    ensures forall x :: x in r ==> !r[x].IsEmpty()
    ensures forall x, i :: LastUpdated(ws, w => WindowUpdate(w, live, updates), x, i) ==>
      x in r && r[x] == WindowUpdate(ws[i], live, updates)
  {
    UpdateMapBy(ws, w => WindowUpdate(w, live, updates))
  }

  /** Window `i` is the last window with id `x` whose update under `f` is not empty. */
  ghost predicate LastUpdated(ws: seq<Window>, f: Window -> WindowsUpdate, x: int, i: int) {
    && 0 <= i < |ws| && ws[i].id == Some(x) && !f(ws[i]).IsEmpty()
    && forall t :: i < t < |ws| && ws[t].id == Some(x) ==> f(ws[t]).IsEmpty()
  }

  /** The map of the non-empty updates `f` gives the windows, keyed by window
      id (a window without an id never has a non-empty update in the pass);
      for an id shared by several windows, the last one with a non-empty
      update wins. */
  function UpdateMapBy(ws: seq<Window>, f: Window -> WindowsUpdate): (r: map<int, WindowsUpdate>)
    ensures forall x :: x in r <==> exists i :: 0 <= i < |ws| && ws[i].id == Some(x) && !f(ws[i]).IsEmpty()
    ensures forall x :: x in r ==> exists i :: 0 <= i < |ws| && ws[i].id == Some(x) && r[x] == f(ws[i])
    ensures forall x :: x in r ==> !r[x].IsEmpty()
    ensures forall x, i :: LastUpdated(ws, f, x, i) ==> x in r && r[x] == f(ws[i])
  {
    if |ws| == 0 then map[]
    else
      var n := |ws| - 1;
      var prefix := ws[..n];
      var rest := UpdateMapBy(prefix, f);
      assert forall i :: 0 <= i < n ==> prefix[i] == ws[i];
      var u := f(ws[n]);
      if u.IsEmpty() || ws[n].id.None? then
        UpdateMapLastStep(ws, f, prefix, rest, rest);
        rest
      else
        var m := rest[ws[n].id.value := u];
        forall x | x in m
          ensures exists i :: 0 <= i < |ws| && ws[i].id == Some(x) && m[x] == f(ws[i])
        {
          if x != ws[n].id.value {
            var i :| 0 <= i < n && prefix[i].id == Some(x) && rest[x] == f(prefix[i]);
            assert ws[i] == prefix[i];
          }
        }
        UpdateMapLastStep(ws, f, prefix, rest, m);
        m
  }

  /** One step of `UpdateMapBy`: if `rest` holds the last non-empty update of
      every id in `prefix`, then `m` does so for `ws`. */
  lemma UpdateMapLastStep(ws: seq<Window>, f: Window -> WindowsUpdate, prefix: seq<Window>,
                          rest: map<int, WindowsUpdate>, m: map<int, WindowsUpdate>)
    requires |ws| > 0 && prefix == ws[..|ws| - 1]
    requires forall x, i :: LastUpdated(prefix, f, x, i) ==> x in rest && rest[x] == f(prefix[i])
    requires m == (var w := ws[|ws| - 1];
                   if f(w).IsEmpty() || w.id.None? then rest else rest[w.id.value := f(w)])
    ensures forall x, i :: LastUpdated(ws, f, x, i) ==> x in m && m[x] == f(ws[i])
  {
    forall x, i | LastUpdated(ws, f, x, i)
      ensures x in m && m[x] == f(ws[i])
    {
      LastUpdatedStep(ws, f, prefix, x, i);
      if i < |ws| - 1 {
        assert prefix[i] == ws[i];
      }
    }
  }

  /** The last non-empty updater of `x` in `ws` is either the final window, or
      the last one in the prefix while the final window does not update `x`. */
  lemma LastUpdatedStep(ws: seq<Window>, f: Window -> WindowsUpdate, prefix: seq<Window>, x: int, i: int)
    requires |ws| > 0 && prefix == ws[..|ws| - 1]
    requires LastUpdated(ws, f, x, i)
    ensures i == |ws| - 1 || LastUpdated(prefix, f, x, i)
    ensures i < |ws| - 1 ==> ws[|ws| - 1].id != Some(x) || f(ws[|ws| - 1]).IsEmpty()
  {
    if i < |ws| - 1 {
      assert prefix[i] == ws[i];
      forall t | i < t < |prefix| && prefix[t].id == Some(x)
        ensures f(prefix[t]).IsEmpty()
      {
        assert prefix[t] == ws[t];
      }
    }
  }

  /** The scheduling loop over the ordered ids, starting at timeout index `k`:
      each id's update is scheduled at `k * UPDATE_TIMEOUT_MS` and removed from
      the map. An id missing from the map, or a map left non-empty at the
      end, is a "bug in the code" error. */
  function Emit(ids: seq<int>, m: map<int, WindowsUpdate>, k: nat): (r: Result<seq<Scheduled>, PassError>)
    requires Distinct(ids)
    ensures r.Ok? <==> forall x :: x in ids <==> x in m
    ensures r.Ok? ==> (|r.value| == |ids| &&
      forall t :: 0 <= t < |ids| ==> ids[t] in m && r.value[t] == Scheduled((k + t) * UpdateTimeoutMs, ids[t], m[ids[t]]))
    decreases |ids|
  {
    if |ids| == 0 then
      if |m| != 0 then
        EmptyMapSize(m);
        Err(MapNotDrained(|m|))
      else
        Ok([])
    else if ids[0] !in m then Err(ActionUndefined(ids[0]))
    else
      var x := ids[0];
      assert x !in ids[1..] by {
        forall t | 0 <= t < |ids[1..]| ensures ids[1..][t] != x { assert ids[t + 1] != ids[0]; }
      }
      assert forall y :: y in ids <==> y == x || y in ids[1..] by {
        assert ids == [x] + ids[1..];
      }
      var rest := Emit(ids[1..], m - {x}, k + 1);
      if rest.Err? then rest
      else
        Ok([Scheduled(k * UpdateTimeoutMs, x, m[x])] + rest.value)
  }

  /** A map with no key has size 0. */
  lemma EmptyMapSize(m: map<int, WindowsUpdate>)
    ensures (forall x :: x !in m) ==> |m| == 0
  {
    if forall x :: x !in m {
      assert m.Keys == {};
    }
  }

  /** `updateWindowsWithMatchedActions(windows)`: builds the action map, prunes
      the matchers, matches every window against every surviving matcher,
      merges the updates and schedules one update per window. */
  function UpdateWindowsWithMatchedActions(
    windows: seq<Window>, actions: seq<Action>, displays: seq<Display>,
    createUpdate: CreateUpdate, matchers: seq<Matcher>): (r: Result<seq<Scheduled>, PassError>)
    ensures Crashes(Live(actions, displays, createUpdate, matchers), windows) ==> r == Err(MatchThrew)
    ensures r.Ok? ==> forall t :: 0 <= t < |r.value| ==> r.value[t].delayMs == t * UpdateTimeoutMs
    ensures r.Ok? ==> Distinct(ScheduledIds(r.value))
  {
    var updates := ActionUpdates(actions, displays, createUpdate);
    var live := PruneMatchers(matchers, updates);
    if Crashes(live, windows) then Err(MatchThrew)
    else Schedule(windows, live, updates)
  }

  /** The scheduling half of the pass, once every window has been matched:
      one update per id of the deduplicated order, staggered from 0. */
  function Schedule(windows: seq<Window>, live: seq<Matcher>, updates: map<string, WindowsUpdate>): (r: Result<seq<Scheduled>, PassError>)
    ensures r.Ok? ==> ScheduledIds(r.value) == ScheduleOrder(windows, live)
    ensures r.Ok? ==> forall t :: 0 <= t < |r.value| ==> r.value[t].delayMs == t * UpdateTimeoutMs
  {
    var ids := ScheduleOrder(windows, live);
    var r := Emit(ids, UpdateMap(windows, live, updates), 0);
    assert r.Ok? ==> ScheduledIds(r.value) == ids;
    r
  }

  /** The window ids of a schedule, in order. */
  function ScheduledIds(s: seq<Scheduled>): (r: seq<int>)
    ensures |r| == |s| && forall t :: 0 <= t < |s| ==> r[t] == s[t].windowId
  {
    seq(|s|, t requires 0 <= t < |s| => s[t].windowId)
  }

  /** The surviving matchers of a pass satisfy `WellPruned`. */
  lemma LiveIsWellPruned(actions: seq<Action>, displays: seq<Display>, createUpdate: CreateUpdate, matchers: seq<Matcher>)
    requires NonEmptyUpdates(actions, displays, createUpdate)
    ensures WellPruned(Live(actions, displays, createUpdate, matchers), ActionUpdates(actions, displays, createUpdate))
  {
    var updates := ActionUpdates(actions, displays, createUpdate);
    forall a | a in updates ensures !updates[a].IsEmpty() {
      ActionUpdatesNonEmpty(actions, displays, createUpdate, a);
    }
  }

  /** The ordered ids and the keys of the update map are the same set: the
      windows with an id that some surviving matcher matches. */
  lemma {:induction false} OrderAndMapAgree(windows: seq<Window>, live: seq<Matcher>, updates: map<string, WindowsUpdate>, x: int)
    requires WellPruned(live, updates)
    ensures x in ScheduleOrder(windows, live) <==> x in UpdateMap(windows, live, updates)
  {
    OrderedIds(windows, live, x);
    forall i | 0 <= i < |windows| {
      WindowUpdateNonEmpty(windows[i], live, updates);
    }
  }

  /** Scheduling never hits either "bug in the code" error. */
  lemma {:induction false} ScheduleSucceeds(windows: seq<Window>, live: seq<Matcher>, updates: map<string, WindowsUpdate>)
    requires WellPruned(live, updates)
    ensures Schedule(windows, live, updates).Ok?
  {
    var ids := ScheduleOrder(windows, live);
    var m := UpdateMap(windows, live, updates);
    forall x ensures x in ids <==> x in m {
      OrderAndMapAgree(windows, live, updates, x);
    }
  }

  /** Scheduling covers each window matched by a surviving matcher. */
  lemma {:induction false} ScheduleIds(windows: seq<Window>, live: seq<Matcher>, updates: map<string, WindowsUpdate>)
    requires WellPruned(live, updates)
    requires Schedule(windows, live, updates).Ok?
    ensures forall x :: x in ScheduledIds(Schedule(windows, live, updates).value) <==>
      (exists i, j :: 0 <= i < |windows| && 0 <= j < |live| && windows[i].id == Some(x) && Matched(live[j], windows[i]))
  {
    forall x ensures x in ScheduleOrder(windows, live) <==>
      (exists i, j :: 0 <= i < |windows| && 0 <= j < |live| && windows[i].id == Some(x) && Matched(live[j], windows[i]))
    {
      OrderedIds(windows, live, x);
    }
  }

  /** Each scheduled update is the non-empty merged update of a window with that id. */
  lemma {:induction false} ScheduleUpdates(windows: seq<Window>, live: seq<Matcher>, updates: map<string, WindowsUpdate>)
    requires WellPruned(live, updates)
    requires Schedule(windows, live, updates).Ok?
    ensures var s := Schedule(windows, live, updates).value;
      forall t :: 0 <= t < |s| ==> ScheduledFromWindow(s[t], windows, live, updates)
  {
    var ids := ScheduleOrder(windows, live);
    var m := UpdateMap(windows, live, updates);
    var s := Schedule(windows, live, updates).value;
    assert s == Emit(ids, m, 0).value;
    forall t | 0 <= t < |s| ensures ScheduledFromWindow(s[t], windows, live, updates) {
      var x := ids[t];
      assert s[t] == Scheduled(t * UpdateTimeoutMs, x, m[x]);
      var i :| 0 <= i < |windows| && windows[i].id == Some(x) && m[x] == WindowUpdate(windows[i], live, updates);
    }
  }

  /** The scheduled call carries the non-empty merged update of a window with its id. */
  ghost predicate ScheduledFromWindow(c: Scheduled, windows: seq<Window>, live: seq<Matcher>, updates: map<string, WindowsUpdate>) {
    exists i :: 0 <= i < |windows| && windows[i].id == Some(c.windowId) &&
      c.update == WindowUpdate(windows[i], live, updates) && !c.update.IsEmpty()
  }

  /** When no `createUpdate` result is an empty object, the pass fails only
      when `matches` throws: both "bug in the code" errors are unreachable.
      A successful pass schedules exactly the windows with an id that some
      surviving matcher matches, each once, with its merged update. */
  lemma {:induction false} PassOutcome(
    windows: seq<Window>, actions: seq<Action>, displays: seq<Display>,
    createUpdate: CreateUpdate, matchers: seq<Matcher>)
    requires NonEmptyUpdates(actions, displays, createUpdate)
    ensures var live := Live(actions, displays, createUpdate, matchers);
      var r := UpdateWindowsWithMatchedActions(windows, actions, displays, createUpdate, matchers);
      r.Ok? <==> !Crashes(live, windows)
    ensures var live := Live(actions, displays, createUpdate, matchers);
      var r := UpdateWindowsWithMatchedActions(windows, actions, displays, createUpdate, matchers);
      r.Ok? ==> forall x :: x in ScheduledIds(r.value) <==>
        (exists i, j :: 0 <= i < |windows| && 0 <= j < |live| && windows[i].id == Some(x) && Matched(live[j], windows[i]))
    ensures var live := Live(actions, displays, createUpdate, matchers);
      var updates := ActionUpdates(actions, displays, createUpdate);
      var r := UpdateWindowsWithMatchedActions(windows, actions, displays, createUpdate, matchers);
      r.Ok? ==> forall t :: 0 <= t < |r.value| ==> ScheduledFromWindow(r.value[t], windows, live, updates)
  {
    var updates := ActionUpdates(actions, displays, createUpdate);
    var live := Live(actions, displays, createUpdate, matchers);
    LiveIsWellPruned(actions, displays, createUpdate, matchers);
    if !Crashes(live, windows) {
      ScheduleSucceeds(windows, live, updates);
      ScheduleIds(windows, live, updates);
      ScheduleUpdates(windows, live, updates);
    }
  }

  /** The order built from `orderArray` follows the matchers: a window whose
      last match is matcher `i` comes before any window that matcher `j > i`
      matches. */
  lemma {:induction false} OrderFollowsMatchers(windows: seq<Window>, live: seq<Matcher>, i: nat, j: nat, x: int, y: int)
    requires forall k :: 0 <= k < |live| ==> |live[k].actions| > 0
    requires i < j < |live|
    requires exists a :: (0 <= a < |windows| && windows[a].id == Some(x) && Matched(live[i], windows[a]))
    requires forall k, a :: (i < k < |live| && 0 <= a < |windows| && windows[a].id == Some(x)) ==> !Matched(live[k], windows[a])
    requires exists b :: (0 <= b < |windows| && windows[b].id == Some(y) && Matched(live[j], windows[b]))
    ensures Before(ScheduleOrder(windows, live), x, y)
  {
    var rows := OrderArray(windows, live);
    assert x in rows[i];
    assert y in rows[j];
    forall k | i < k < |rows| ensures x !in rows[k] {
      assert rows[k] == Column(windows, live[k]);
    }
    KeepLastRowsOrder(rows, i, j, x, y);
  }

  /** A successful pass is the schedule of the surviving matchers. */
  lemma PassIsSchedule(
    windows: seq<Window>, actions: seq<Action>, displays: seq<Display>,
    createUpdate: CreateUpdate, matchers: seq<Matcher>)
    ensures var r := UpdateWindowsWithMatchedActions(windows, actions, displays, createUpdate, matchers);
      r.Ok? ==> r == Schedule(windows, Live(actions, displays, createUpdate, matchers), ActionUpdates(actions, displays, createUpdate))
  {
  }

  /** Windows are scheduled in matcher order: a window whose last match is
      surviving matcher `i` is scheduled before any window that matcher `j > i`
      matches. */
  lemma {:induction false} LaterMatcherScheduledLater(
    windows: seq<Window>, actions: seq<Action>, displays: seq<Display>,
    createUpdate: CreateUpdate, matchers: seq<Matcher>, i: nat, j: nat, x: int, y: int)
    requires NonEmptyUpdates(actions, displays, createUpdate)
    requires !Crashes(Live(actions, displays, createUpdate, matchers), windows)
    requires i < j < |Live(actions, displays, createUpdate, matchers)|
    requires exists a :: (0 <= a < |windows| && windows[a].id == Some(x) &&
      Matched(Live(actions, displays, createUpdate, matchers)[i], windows[a]))
    requires forall k, a :: (i < k < |Live(actions, displays, createUpdate, matchers)| && 0 <= a < |windows| &&
      windows[a].id == Some(x)) ==> !Matched(Live(actions, displays, createUpdate, matchers)[k], windows[a])
    requires exists b :: (0 <= b < |windows| && windows[b].id == Some(y) &&
      Matched(Live(actions, displays, createUpdate, matchers)[j], windows[b]))
    ensures var r := UpdateWindowsWithMatchedActions(windows, actions, displays, createUpdate, matchers);
      r.Ok? && Before(ScheduledIds(r.value), x, y)
  {
    PassOutcome(windows, actions, displays, createUpdate, matchers);
    PassIsSchedule(windows, actions, displays, createUpdate, matchers);
    LiveColumnsNonEmpty(actions, displays, createUpdate, matchers);
    OrderFollowsMatchers(windows, Live(actions, displays, createUpdate, matchers), i, j, x, y);
  }

  /** `updateWindowWithAllActions(windowId)`: the pass over the one window the
      host returns for the id; a missing window is an error. */
  function UpdateWindowWithAllActions(
    windowId: int, window: Option<Window>, actions: seq<Action>, displays: seq<Display>,
    createUpdate: CreateUpdate, matchers: seq<Matcher>): (r: Result<seq<Scheduled>, PassError>)
    ensures window.None? ==> r == Err(WindowNotFound(windowId))
    ensures r.Ok? ==> |r.value| <= 1
    ensures r.Ok? && |r.value| == 1 ==> Some(r.value[0].windowId) == window.value.id
  {
    if window.None? then Err(WindowNotFound(windowId))
    else
      SingleWindowPass(window.value, actions, displays, createUpdate, matchers);
      UpdateWindowsWithMatchedActions([window.value], actions, displays, createUpdate, matchers)
  }

  /** The order for a single window holds at most that window's id. */
  lemma {:induction false} SingleWindowOrder(w: Window, live: seq<Matcher>)
    requires forall k :: 0 <= k < |live| ==> |live[k].actions| > 0
    ensures |ScheduleOrder([w], live)| <= 1
    ensures forall x :: x in ScheduleOrder([w], live) ==> Some(x) == w.id
  {
    var ids := ScheduleOrder([w], live);
    forall x | x in ids ensures Some(x) == w.id {
      OrderedIds([w], live, x);
    }
    assert forall t :: 0 <= t < |ids| ==> ids[t] in ids;
    assert forall t :: 0 <= t < |ids| ==> Some(ids[t]) == w.id;
    DistinctConstant(ids);
  }

  /** A pass over one window schedules at most that window. */
  lemma SingleWindowPass(w: Window, actions: seq<Action>, displays: seq<Display>, createUpdate: CreateUpdate, matchers: seq<Matcher>)
    ensures var r := UpdateWindowsWithMatchedActions([w], actions, displays, createUpdate, matchers);
      r.Ok? ==> |r.value| <= 1 && (|r.value| == 1 ==> Some(r.value[0].windowId) == w.id)
  {
    var r := UpdateWindowsWithMatchedActions([w], actions, displays, createUpdate, matchers);
    PassIsSchedule([w], actions, displays, createUpdate, matchers);
    LiveColumnsNonEmpty(actions, displays, createUpdate, matchers);
    SingleWindowOrder(w, Live(actions, displays, createUpdate, matchers));
    if r.Ok? && |r.value| == 1 {
      assert r.value[0].windowId in ScheduledIds(r.value);
    }
  }

  /** Surviving matchers have at least one action. */
  lemma LiveColumnsNonEmpty(actions: seq<Action>, displays: seq<Display>, createUpdate: CreateUpdate, matchers: seq<Matcher>)
    ensures var live := Live(actions, displays, createUpdate, matchers);
      forall j :: 0 <= j < |live| ==> |live[j].actions| > 0
  {
  }

  /** `getValidActions`: the actions whose display reference resolves, bound
      to their display, in order. `mapDisplays` is not part of this model. */
  function GetValidActions(
    actions: seq<Action>, displays: seq<Display>,
    mapDisplays: (seq<Display>, set<string>) -> map<string, Display>): (r: seq<ActionWithDisplay>)
    ensures var m := mapDisplays(displays, ReferencedDisplays(actions));
      forall x :: x in r <==> exists i :: (0 <= i < |actions| && actions[i].display in m &&
        x == WithDisplay(m[actions[i].display], actions[i]))
  {
    BindValid(actions, mapDisplays(displays, ReferencedDisplays(actions)))
  }

  function BindValid(actions: seq<Action>, m: map<string, Display>): (r: seq<ActionWithDisplay>)
    ensures forall x :: x in r <==> exists i :: (0 <= i < |actions| && actions[i].display in m &&
      x == WithDisplay(m[actions[i].display], actions[i]))
  {
    if |actions| == 0 then []
    else
      var a := actions[0];
      var rest := BindValid(actions[1..], m);
      assert forall i :: 1 <= i < |actions| ==> actions[i] == actions[1..][i - 1];
      var r := if a.display in m then [WithDisplay(m[a.display], a)] + rest else rest;
      forall x | x in r ensures exists i :: (0 <= i < |actions| && actions[i].display in m &&
        x == WithDisplay(m[actions[i].display], actions[i]))
      {
        if x in rest {
          var i :| 0 <= i < |actions[1..]| && actions[1..][i].display in m &&
            x == WithDisplay(m[actions[1..][i].display], actions[1..][i]);
          assert actions[i + 1] == actions[1..][i];
        }
      }
      r
  }

  lemma {:induction false} BindValidIsFilteredBinding(actions: seq<Action>, m: map<string, Display>)
    ensures BindValid(actions, m) == FilterWithDisplay(BindAll(actions, m))
  {
    if |actions| > 0 {
      BindValidIsFilteredBinding(actions[1..], m);
      var bs := BindAll(actions, m);
      assert bs[1..] == BindAll(actions[1..], m);
    }
  }

  /** The worker's `getValidActions` and the action module's
      `filterWithDisplay(matchActionsToDisplay(..))` select the same bound
      actions in the same order. */
  lemma ValidActionsAgree(
    actions: seq<Action>, displays: seq<Display>,
    mapDisplays: (seq<Display>, set<string>) -> map<string, Display>)
    ensures GetValidActions(actions, displays, mapDisplays) ==
      FilterWithDisplay(MatchActionsToDisplay(actions, displays, mapDisplays))
  {
    var m := mapDisplays(displays, ReferencedDisplays(actions));
    BindValidIsFilteredBinding(actions, m);
    var bs := BindAll(actions, m);
    var cs := MatchActionsToDisplay(actions, displays, mapDisplays);
    assert bs == cs;
  }

  /** `filter(pred).findLast(() => true)`: the last element satisfying `pred`. */
  function FindLast<T>(s: seq<T>, pred: T -> bool): (r: Option<T>)
    ensures r.None? <==> forall i :: 0 <= i < |s| ==> !pred(s[i])
    ensures r.Some? ==> exists i :: LastSatisfying(s, pred, i) && s[i] == r.value
  {
    if |s| == 0 then None
    else
      var n := |s| - 1;
      var rest := FindLast(s[..n], pred);
      assert forall i :: 0 <= i < n ==> s[..n][i] == s[i];
      if pred(s[n]) then
        assert LastSatisfying(s, pred, n);
        Some(s[n])
      else
        assert rest.Some? ==> exists i :: LastSatisfying(s, pred, i) && s[i] == rest.value by {
          if rest.Some? {
            var i :| LastSatisfying(s[..n], pred, i) && s[..n][i] == rest.value;
            assert LastSatisfying(s, pred, i);
          }
        }
        rest
  }

  /** `i` is the last position of `s` whose element satisfies `pred`. */
  ghost predicate LastSatisfying<T>(s: seq<T>, pred: T -> bool, i: int) {
    0 <= i < |s| && pred(s[i]) && forall j :: i < j < |s| ==> !pred(s[j])
  }

  datatype SpecifiedError =
    | NoActionForWindow(windowId: int)   // no valid action satisfies the predicate
    | InvalidPosition(error: PositionError)

  /** `updateWindowWithSpecifiedAction(windowId, pred)`: the update call for the
      last valid action that satisfies `pred`. */
  function UpdateWindowWithSpecifiedAction(
    windowId: int, actions: seq<Action>, displays: seq<Display>,
    mapDisplays: (seq<Display>, set<string>) -> map<string, Display>,
    pred: ActionWithDisplay -> bool): (r: Result<(int, WindowsUpdate), SpecifiedError>)
    ensures var valid := GetValidActions(actions, displays, mapDisplays);
      r == Err(NoActionForWindow(windowId)) <==> forall i :: 0 <= i < |valid| ==> !pred(valid[i])
    ensures var valid := GetValidActions(actions, displays, mapDisplays);
      r != Err(NoActionForWindow(windowId)) ==>
        exists i :: 0 <= i < |valid| && pred(valid[i]) && (forall j :: i < j < |valid| ==> !pred(valid[j])) &&
          (PrepareUpdate(valid[i]).Ok? ==> r == Ok((windowId, PrepareUpdate(valid[i]).value))) &&
          (PrepareUpdate(valid[i]).Err? ==> r == Err(InvalidPosition(PrepareUpdate(valid[i]).error)))
  {
    var chosen := FindLast(GetValidActions(actions, displays, mapDisplays), pred);
    if chosen.None? then Err(NoActionForWindow(windowId))
    else
      var u := PrepareUpdate(chosen.value);
      if u.Err? then Err(InvalidPosition(u.error)) else Ok((windowId, u.value))
  }
}
