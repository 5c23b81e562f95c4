/** Sessions: the remembered association of windows with the action last
    applied to them, kept as a list of entries. */
module Sessions {
  import opened Sequences
  import opened Actions

  /** One remembered entry, `{actionId, windowId}`. */
  datatype WindowPosition = WindowPosition(actionId: string, windowId: int)

  /** The stored list of entries. */
  type Configs = seq<WindowPosition>

  /** The entries of window `w`, in list order. */
  function EntriesOf(c: Configs, w: int): (r: Configs)
    ensures forall e :: e in r <==> e in c && e.windowId == w
  {
    if |c| == 0 then []
    else (if c[0].windowId == w then [c[0]] else []) + EntriesOf(c[1..], w)
  }

  /** `configs.filter((c) => c.windowId !== w)`: every entry of other windows,
      in list order. */
  function Without(c: Configs, w: int): (r: Configs)
    ensures forall e :: e in r <==> e in c && e.windowId != w
    ensures IsSubsequence(r, c)
  {
    if |c| == 0 then []
    else if c[0].windowId == w then
      var rest := Without(c[1..], w);
      SubsequenceSkip(c[0], rest, c[1..]);
      assert [c[0]] + c[1..] == c;
      rest
    else
      var rest := Without(c[1..], w);
      SubsequenceCons(c[0], rest, c[1..]);
      assert [c[0]] + c[1..] == c;
      [c[0]] + rest
  }

  /** `rememberWindowPosition(actionId, windowId)`: drops the window's entries
      and appends the new one. */
  function Remember(c: Configs, actionId: string, w: int): (r: Configs)
    ensures |r| > 0 && r[|r| - 1] == WindowPosition(actionId, w)
    ensures forall e :: e in r <==> (e in c && e.windowId != w) || e == WindowPosition(actionId, w)
  {
    Without(c, w) + [WindowPosition(actionId, w)]
  }

  /** `clearWindowPosition(windowId)`. */
  function Clear(c: Configs, w: int): (r: Configs)
    ensures forall e :: e in r <==> e in c && e.windowId != w
  {
    Without(c, w)
  }

  /** The list holds at most one entry per window. */
  ghost predicate OnePerWindow(c: Configs) {
    forall i, j :: 0 <= i < |c| && 0 <= j < |c| && c[i].windowId == c[j].windowId ==> i == j
  }

  lemma {:induction false} EntriesOfAppend(a: Configs, b: Configs, w: int)
    ensures EntriesOf(a + b, w) == EntriesOf(a, w) + EntriesOf(b, w)
  {
    if |a| == 0 {
      assert a + b == b;
    } else {
      assert (a + b)[1..] == a[1..] + b;
      EntriesOfAppend(a[1..], b, w);
    }
  }

  /** Dropping window `w` leaves the entries of every other window as they were,
      in the same order, and leaves none for `w`. */
  lemma {:induction false} WithoutEntries(c: Configs, w: int, v: int)
    ensures EntriesOf(Without(c, w), w) == []
    ensures v != w ==> EntriesOf(Without(c, w), v) == EntriesOf(c, v)
  {
    if |c| > 0 {
      WithoutEntries(c[1..], w, v);
      if c[0].windowId != w {
        EntriesOfAppend([c[0]], Without(c[1..], w), w);
        EntriesOfAppend([c[0]], Without(c[1..], w), v);
      }
    }
  }

  /** After `remember(a, w)` window `w` has exactly one entry, `{a, w}`, and
      every other window keeps its entries in their order. */
  lemma RememberEntries(c: Configs, actionId: string, w: int, v: int)
    ensures EntriesOf(Remember(c, actionId, w), w) == [WindowPosition(actionId, w)]
    ensures v != w ==> EntriesOf(Remember(c, actionId, w), v) == EntriesOf(c, v)
  {
    WithoutEntries(c, w, v);
    EntriesOfAppend(Without(c, w), [WindowPosition(actionId, w)], w);
    EntriesOfAppend(Without(c, w), [WindowPosition(actionId, w)], v);
  }

  /** `clear(w)` removes every entry of `w` and nothing else. */
  lemma ClearEntries(c: Configs, w: int, v: int)
    ensures EntriesOf(Clear(c, w), w) == []
    ensures v != w ==> EntriesOf(Clear(c, w), v) == EntriesOf(c, v)
  {
    WithoutEntries(c, w, v);
  }

  /** Dropping a window's entries twice is dropping them once. */
  lemma {:induction false} WithoutIdempotent(c: Configs, w: int)
    ensures Without(Without(c, w), w) == Without(c, w)
  {
    if |c| > 0 {
      WithoutIdempotent(c[1..], w);
      if c[0].windowId != w {
        var rest := Without(c[1..], w);
        assert ([c[0]] + rest)[0] == c[0] && ([c[0]] + rest)[1..] == rest;
      }
    }
  }

  /** `clear` is idempotent. */
  lemma ClearIdempotent(c: Configs, w: int)
    ensures Clear(Clear(c, w), w) == Clear(c, w)
  {
    WithoutIdempotent(c, w);
  }

  lemma {:induction false} WithoutAppend(a: Configs, b: Configs, w: int)
    ensures Without(a + b, w) == Without(a, w) + Without(b, w)
  {
    if |a| == 0 {
      assert a + b == b;
    } else {
      assert (a + b)[0] == a[0] && (a + b)[1..] == a[1..] + b;
      WithoutAppend(a[1..], b, w);
    }
  }

  /** Clearing a window right after remembering it undoes the remember. */
  lemma ClearAfterRemember(c: Configs, actionId: string, w: int)
    ensures Clear(Remember(c, actionId, w), w) == Clear(c, w)
  {
    WithoutAppend(Without(c, w), [WindowPosition(actionId, w)], w);
    WithoutIdempotent(c, w);
    assert Without([WindowPosition(actionId, w)], w) == [];
  }

  /** A subsequence of a list with one entry per window has one entry per window. */
  lemma {:induction false} OnePerWindowSubsequence(a: Configs, b: Configs)
    requires IsSubsequence(a, b) && OnePerWindow(b)
    ensures OnePerWindow(a)
  {
    if |a| > 0 && |b| > 0 {
      if a[0] == b[0] {
        OnePerWindowSubsequence(a[1..], b[1..]);
        forall i | 0 < i < |a| ensures a[i].windowId != a[0].windowId {
          assert a[i] == a[1..][i - 1];
          SubsequenceMember(a[1..], b[1..], a[i]);
          var k :| 0 <= k < |b[1..]| && b[1..][k] == a[i];
          assert b[k + 1] == a[i];
        }
      } else {
        OnePerWindowSubsequence(a, b[1..]);
      }
    }
  }

  /** `remember` and `clear` keep at most one entry per window. */
  lemma RememberKeepsOnePerWindow(c: Configs, actionId: string, w: int)
    requires OnePerWindow(c)
    ensures OnePerWindow(Remember(c, actionId, w))
    ensures OnePerWindow(Clear(c, w))
  {
    OnePerWindowSubsequence(Without(c, w), c);
    var r := Remember(c, actionId, w);
    forall i | 0 <= i < |r| - 1 ensures r[i].windowId != w {
      assert r[i] in Without(c, w);
    }
  }

  /** `new Map(actions.map((a) => [a.id, a]))`: a later action with the same id
      replaces an earlier one. */
  function ActionsById(actions: seq<ActionWithDisplay>): (m: map<string, ActionWithDisplay>)
    ensures forall k :: k in m <==> exists i :: 0 <= i < |actions| && actions[i].id == k
    ensures forall k :: k in m ==> m[k].id == k
    ensures forall k :: k in m ==>
      exists i :: 0 <= i < |actions| && actions[i] == m[k] && forall j :: i < j < |actions| ==> actions[j].id != k
  {
    KeyedBy(actions, (a: ActionWithDisplay) => a.id)
  }

  /** `i` is the last position of `xs` whose key is `k`. */
  ghost predicate LastWithKey<T>(xs: seq<T>, key: T -> string, k: string, i: int) {
    0 <= i < |xs| && key(xs[i]) == k && forall j :: i < j < |xs| ==> key(xs[j]) != k
  }

  /** `new Map(xs.map((x) => [key(x), x]))`. */
  function KeyedBy<T>(xs: seq<T>, key: T -> string): (m: map<string, T>)
    ensures forall k :: k in m <==> exists i :: 0 <= i < |xs| && key(xs[i]) == k
    ensures forall k :: k in m ==> exists i :: LastWithKey(xs, key, k, i) && xs[i] == m[k]
  {
    if |xs| == 0 then map[]
    else
      var n := |xs| - 1;
      var rest := KeyedBy(xs[..n], key);
      var m := rest[key(xs[n]) := xs[n]];
      KeyedByStep(xs, key, xs[..n], rest, m);
      m
  }

  /** The step of `KeyedBy`: the map of all but the last element, updated with
      the last, is the map of the whole sequence. */
  lemma KeyedByStep<T>(xs: seq<T>, key: T -> string, prefix: seq<T>, rest: map<string, T>, m: map<string, T>)
    requires |xs| > 0 && prefix == xs[..|xs| - 1]
    requires forall k :: k in rest <==> exists i :: 0 <= i < |prefix| && key(prefix[i]) == k
    requires forall k :: k in rest ==> exists i :: LastWithKey(prefix, key, k, i) && prefix[i] == rest[k]
    requires m == rest[key(xs[|xs| - 1]) := xs[|xs| - 1]]
    ensures forall k :: k in m <==> exists i :: 0 <= i < |xs| && key(xs[i]) == k
    ensures forall k :: k in m ==> exists i :: LastWithKey(xs, key, k, i) && xs[i] == m[k]
  {
    var n := |xs| - 1;
    forall k
      ensures k in m <==> exists i :: 0 <= i < |xs| && key(xs[i]) == k
    {
      if i :| 0 <= i < |xs| && key(xs[i]) == k {
        if i < n {
          assert key(prefix[i]) == k;
        }
      }
      if k in rest {
        var i :| 0 <= i < n && key(prefix[i]) == k;
        assert key(xs[i]) == k;
      }
    }
    forall k | k in m
      ensures exists i :: LastWithKey(xs, key, k, i) && xs[i] == m[k]
    {
      if k == key(xs[n]) {
        assert LastWithKey(xs, key, k, n);
      } else {
        var i :| LastWithKey(prefix, key, k, i) && prefix[i] == rest[k];
        assert LastWithKey(xs, key, k, i);
      }
    }
  }

  /** `mapWindowsToSavedActions(actions)` over the stored entries: each window
      whose remembered action id is among `actions` maps to that action; a
      later entry for the same window replaces an earlier one. The
      `checkNonEmpty` guard cannot fail, since the looked-up value is an object. */
  function MapWindowsToSavedActions(actions: seq<ActionWithDisplay>, c: Configs): (m: map<int, ActionWithDisplay>)
    ensures forall w :: w in m <==> exists e :: e in c && e.windowId == w && e.actionId in ActionsById(actions)
    ensures forall w :: w in m ==>
      exists i :: LastKnownEntry(ActionsById(actions), c, w, i) &&
        m[w] == ActionsById(actions)[c[i].actionId] &&
        m[w].id == c[i].actionId
  {
    WindowsToSaved(ActionsById(actions), c)
  }

  /** Entry `i` is the last entry for window `w` whose action id is a key of `byId`. */
  ghost predicate LastKnownEntry<T>(byId: map<string, T>, c: Configs, w: int, i: int) {
    0 <= i < |c| && c[i].windowId == w && c[i].actionId in byId &&
    forall t :: i < t < |c| && c[t].windowId == w ==> c[t].actionId !in byId
  }

  /** The entries whose action id is a key of `byId`, keyed by window, the
      last such entry of a window winning. */
  function WindowsToSaved<T>(byId: map<string, T>, c: Configs): (m: map<int, T>)
    ensures forall w :: w in m <==> exists e :: e in c && e.windowId == w && e.actionId in byId
    ensures forall w :: w in m ==> exists i :: LastKnownEntry(byId, c, w, i) && m[w] == byId[c[i].actionId]
  {
    if |c| == 0 then map[]
    else
      var n := |c| - 1;
      var rest := WindowsToSaved(byId, c[..n]);
      var m := if c[n].actionId in byId then rest[c[n].windowId := byId[c[n].actionId]] else rest;
      WindowsToSavedStep(byId, c, c[..n], rest, m);
      m
  }

  /** The step of `WindowsToSaved`: the last entry, when its action id is
      known, overrides its window's mapping. */
  lemma WindowsToSavedStep<T>(byId: map<string, T>, c: Configs, prefix: Configs, rest: map<int, T>, m: map<int, T>)
    requires |c| > 0 && prefix == c[..|c| - 1]
    requires forall w :: w in rest <==> exists e :: e in prefix && e.windowId == w && e.actionId in byId
    requires forall w :: w in rest ==> exists i :: LastKnownEntry(byId, prefix, w, i) && rest[w] == byId[prefix[i].actionId]
    requires m == if c[|c| - 1].actionId in byId then rest[c[|c| - 1].windowId := byId[c[|c| - 1].actionId]] else rest
    ensures forall w :: w in m <==> exists e :: e in c && e.windowId == w && e.actionId in byId
    ensures forall w :: w in m ==> exists i :: LastKnownEntry(byId, c, w, i) && m[w] == byId[c[i].actionId]
  {
    var n := |c| - 1;
    var last := c[n];
    assert forall i :: 0 <= i < n ==> prefix[i] == c[i];
    assert forall e :: e in c <==> e in prefix || e == last by {
      assert c == prefix + [last];
    }
    forall w | w in m ensures exists i :: LastKnownEntry(byId, c, w, i) && m[w] == byId[c[i].actionId] {
      if last.actionId in byId && w == last.windowId {
        assert LastKnownEntry(byId, c, w, n);
      } else {
        var i :| LastKnownEntry(byId, prefix, w, i) && rest[w] == byId[prefix[i].actionId];
        assert LastKnownEntry(byId, c, w, i);
      }
    }
  }

  /** A window remembered with a known action id maps back to that action. */
  lemma {:induction false} RememberThenMap(actions: seq<ActionWithDisplay>, c: Configs, actionId: string, w: int)
    requires exists i :: 0 <= i < |actions| && actions[i].id == actionId
    ensures var m := MapWindowsToSavedActions(actions, Remember(c, actionId, w));
      w in m && m[w].id == actionId && m[w] == ActionsById(actions)[actionId]
  {
    var r := Remember(c, actionId, w);
    assert r[..|r| - 1] == Without(c, w);
  }
}
