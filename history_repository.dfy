/**
 * The recognition history of LatexFlow (data/HistoryRepository.kt).
 *
 * The history is a list of LaTeX strings, newest first, persisted under one
 * key of the app's preferences.  Adding a record moves it to the front
 * (after dropping its earlier copy) and keeps at most twenty entries;
 * clearing removes the key, after which the history reads as empty.
 *
 * The preferences store and its JSON array encoding are abstract: the
 * stored value is the list itself, or nothing when the key is absent.
 */
module History {
  import opened Wrappers

  /** MAX_HISTORY: the most entries the history keeps. */
  const MaxHistory := 20

  /** `MutableList.remove(x)`: drop the first occurrence of `x`, if any. */
  function RemoveFirst(h: seq<string>, x: string): seq<string>
  {
    if h == [] then []
    else if h[0] == x then h[1..]
    else [h[0]] + RemoveFirst(h[1..], x)
  }

  /** `take(MAX_HISTORY)` when the list is longer than MAX_HISTORY. */
  function Truncate(h: seq<string>): seq<string>
  {
    if |h| > MaxHistory then h[..MaxHistory] else h
  }

  /** The list `addRecord` saves when the history was `h`. */
  function Added(h: seq<string>, x: string): seq<string>
  {
    Truncate([x] + RemoveFirst(h, x))
  }

  /** Every occurrence of `x` removed: the reference definition of deduplication. */
  function Without(h: seq<string>, x: string): seq<string>
  {
    if h == [] then []
    else (if h[0] == x then [] else [h[0]]) + Without(h[1..], x)
  }

  /** No entry appears twice. */
  predicate NoDup(h: seq<string>)
  {
    forall i, j :: 0 <= i < j < |h| ==> h[i] != h[j]
  }

  /** `a` is a prefix of `b`. */
  predicate IsPrefix(a: seq<string>, b: seq<string>)
  {
    |a| <= |b| && a == b[..|a|]
  }

  lemma {:induction false} RemoveFirstMultiset(h: seq<string>, x: string)
    ensures x in h ==> multiset(RemoveFirst(h, x)) == multiset(h) - multiset{x}
    ensures x !in h ==> RemoveFirst(h, x) == h
    ensures |RemoveFirst(h, x)| == if x in h then |h| - 1 else |h|
  {
    if h != [] {
      RemoveFirstMultiset(h[1..], x);
      assert h == [h[0]] + h[1..];
      if h[0] != x {
        assert x in h ==> x in h[1..];
      }
    }
  }

  lemma {:induction false} WithoutMembers(h: seq<string>, x: string)
    ensures forall y :: y in Without(h, x) <==> y in h && y != x
    ensures |Without(h, x)| <= |h|
  {
    if h != [] {
      WithoutMembers(h[1..], x);
      assert h == [h[0]] + h[1..];
    }
  }

  /** On a duplicate-free list, dropping the first copy drops them all. */
  lemma {:induction false} RemoveFirstIsWithout(h: seq<string>, x: string)
    requires NoDup(h)
    ensures RemoveFirst(h, x) == Without(h, x)
  {
    if h != [] {
      assert NoDup(h[1..]) by {
        forall i, j | 0 <= i < j < |h[1..]| ensures h[1..][i] != h[1..][j] {
          assert h[1..][i] == h[i + 1] && h[1..][j] == h[j + 1];
        }
      }
      RemoveFirstIsWithout(h[1..], x);
      if h[0] == x {
        WithoutMembers(h[1..], x);
        assert x !in h[1..] by {
          forall k | 0 <= k < |h[1..]| ensures h[1..][k] != x {
            assert h[1..][k] == h[k + 1];
          }
        }
        WithoutAbsent(h[1..], x);
      }
    }
  }

  lemma {:induction false} WithoutAbsent(h: seq<string>, x: string)
    requires x !in h
    ensures Without(h, x) == h
  {
    if h != [] {
      assert h == [h[0]] + h[1..];
      WithoutAbsent(h[1..], x);
    }
  }

  lemma {:induction false} WithoutNoDup(h: seq<string>, x: string)
    requires NoDup(h)
    ensures NoDup(Without(h, x))
  {
    if h != [] {
      assert NoDup(h[1..]) by {
        forall i, j | 0 <= i < j < |h[1..]| ensures h[1..][i] != h[1..][j] {
          assert h[1..][i] == h[i + 1] && h[1..][j] == h[j + 1];
        }
      }
      WithoutNoDup(h[1..], x);
      WithoutMembers(h[1..], x);
      if h[0] != x {
        assert h[0] !in h[1..] by {
          forall k | 0 <= k < |h[1..]| ensures h[1..][k] != h[0] {
            assert h[1..][k] == h[k + 1];
          }
        }
        PrependNoDup(h[0], Without(h[1..], x));
      }
    }
  }

  lemma PrependNoDup(x: string, t: seq<string>)
    requires NoDup(t) && x !in t
    ensures NoDup([x] + t)
  {
    forall i, j | 0 <= i < j < |[x] + t| ensures ([x] + t)[i] != ([x] + t)[j] {
      if i == 0 {
        assert ([x] + t)[j] == t[j - 1];
      } else {
        assert ([x] + t)[i] == t[i - 1] && ([x] + t)[j] == t[j - 1];
      }
    }
  }

  /**
   * `addRecord` puts the new entry first and keeps at most twenty; the
   * history grows by one unless the entry was already there or the limit
   * is reached.
   */
  lemma AddedShape(h: seq<string>, x: string)
    ensures |Added(h, x)| >= 1 && Added(h, x)[0] == x
    ensures |Added(h, x)| <= MaxHistory
    ensures |Added(h, x)| == Min(MaxHistory, if x in h then |h| else |h| + 1)
  {
    RemoveFirstMultiset(h, x);
  }

  function Min(a: int, b: int): int
  {
    if a <= b then a else b
  }

  /** A new entry on a full history pushes out the oldest one. */
  lemma AddedDropsOldest(h: seq<string>, x: string)
    requires |h| == MaxHistory && x !in h
    ensures Added(h, x) == [x] + h[..MaxHistory - 1]
  {
    RemoveFirstMultiset(h, x);
  }

  /**
   * On a duplicate-free history: the result is duplicate-free, holds `x`
   * once, and after it the other entries in their old order, oldest dropped
   * first.
   */
  lemma AddedKeepsOrder(h: seq<string>, x: string)
    requires NoDup(h)
    ensures NoDup(Added(h, x))
    ensures IsPrefix(Added(h, x)[1..], Without(h, x))
    ensures forall y :: y in Added(h, x) ==> y == x || y in h
    ensures forall k :: 1 <= k < |Added(h, x)| ==> Added(h, x)[k] != x
  {
    RemoveFirstIsWithout(h, x);
    WithoutNoDup(h, x);
    WithoutMembers(h, x);
    var t := [x] + Without(h, x);
    PrependNoDup(x, Without(h, x));
    assert Added(h, x) == Truncate(t);
    assert Added(h, x)[1..] == Without(h, x)[..|Added(h, x)| - 1];
    forall i, j | 0 <= i < j < |Truncate(t)| ensures Truncate(t)[i] != Truncate(t)[j] {
      assert Truncate(t)[i] == t[i] && Truncate(t)[j] == t[j];
    }
    forall k | 1 <= k < |Added(h, x)| ensures Added(h, x)[k] != x {
      assert Added(h, x)[k] == t[k] == Without(h, x)[k - 1];
    }
  }

  /** Every entry the history keeps was already there or is the new one; no entry it drops is among the 19 newest others. */
  lemma AddedMembers(h: seq<string>, x: string)
    requires NoDup(h)
    ensures forall y :: y in Added(h, x) <==>
      y == x || y in Without(h, x)[..Min(MaxHistory - 1, |Without(h, x)|)]
  {
    AddedKeepsOrder(h, x);
    AddedShape(h, x);
    RemoveFirstIsWithout(h, x);
    var r := Added(h, x);
    var w := Without(h, x)[..Min(MaxHistory - 1, |Without(h, x)|)];
    assert r == [x] + w;
  }

  /** Adding the same entry twice in a row is the same as adding it once. */
  lemma AddedIdempotent(h: seq<string>, x: string)
    ensures Added(Added(h, x), x) == Added(h, x)
  {
    var r := Added(h, x);
    AddedShape(h, x);
    assert r == [x] + r[1..];
    assert RemoveFirst(r, x) == r[1..];
  }

  /**
   * The repository over the preferences store.  `saved` is the stored value
   * of the history key: None when the key is absent.
   */
  class HistoryRepository {
    var saved: Option<seq<string>>

    /** The list `getHistory` reads: an absent key reads as the empty array. */
    function Contents(): seq<string>
      reads this
    {
      if saved.None? then [] else saved.value
    }

    /** What the repository maintains when only `addRecord` and `clearHistory` write the key. */
    ghost predicate Valid()
      reads this
    {
      NoDup(Contents()) && |Contents()| <= MaxHistory
    }

    /** A repository over whatever the preferences already hold. */
    constructor (persisted: Option<seq<string>>)
      ensures saved == persisted
      ensures persisted.None? ==> Valid()
    {
      saved := persisted;
    }

    /** `getHistory`: copy the stored array element by element. */
    method GetHistory() returns (list: seq<string>)
      ensures list == Contents()
    {
      var stored := if saved.None? then [] else saved.value;
      list := [];
      var i := 0;
      while i < |stored|
        invariant 0 <= i <= |stored|
        invariant list == stored[..i]
      {
        list := list + [stored[i]];
        i := i + 1;
      }
      assert stored[..i] == stored;
    }

    /** `addRecord`: move `latex` to the front and keep at most twenty entries. */
    method AddRecord(latex: string)
      modifies this
      ensures saved == Some(Added(old(Contents()), latex))
      ensures old(Valid()) ==> Valid()
    {
      var current := GetHistory();
      ghost var before := current;
      current := RemoveFirst(current, latex);
      current := [latex] + current;
      var saveList := if |current| > MaxHistory then current[..MaxHistory] else current;
      saved := Some(saveList);
      AddedShape(before, latex);
      if NoDup(before) {
        AddedKeepsOrder(before, latex);
      }
    }

    /** `clearHistory`: remove the key. */
    method ClearHistory()
      modifies this
      ensures saved == None && Contents() == []
      ensures Valid()
    {
      saved := None;
    }
  }
}
