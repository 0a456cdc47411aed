/** Ascending order of line numbers.

  The pipeline walks its line-keyed maps in ascending numeric order: explicitly where it sorts
  `Object.keys` (squish and the pairer's forward scan) and implicitly where it iterates the
  integer-like keys of a JavaScript object with `for…in`. `Ascending` is that order as a value,
  and `AscendingKeys` computes it.
 */
module LineOrder {

  /** Strictly increasing: no line twice, smaller lines first. */
  predicate Increasing(ks: seq<int>)
  {
    forall i, j :: 0 <= i < j < |ks| ==> ks[i] < ks[j]
  }

  /** A non-empty set of lines has a member. */
  lemma NonEmptyHasMember(s: set<int>)
    requires s != {}
    ensures exists x :: x in s
  {
    if forall x :: x !in s {
      assert false;
    }
  }

  /** The smallest line of a non-empty set. */
  ghost function Min(s: set<int>): (m: int)
    requires s != {}
    ensures m in s && forall k :: k in s ==> m <= k
    decreases |s|
  {
    NonEmptyHasMember(s);
    var x :| x in s;
    if s == {x} then x
    else
      var r := Min(s - {x});
      assert forall k :: k in s ==> k == x || k in s - {x};
      if x < r then x else r
  }

  /** The largest line of a non-empty set. */
  ghost function Max(s: set<int>): (m: int)
    requires s != {}
    ensures m in s && forall k :: k in s ==> k <= m
    decreases |s|
  {
    NonEmptyHasMember(s);
    var x :| x in s;
    if s == {x} then x
    else
      var r := Max(s - {x});
      assert forall k :: k in s ==> k == x || k in s - {x};
      if x > r then x else r
  }

  /** `ks` lists exactly the lines of `s`. */
  ghost predicate Enumerates(ks: seq<int>, s: set<int>)
  {
    forall k :: k in ks <==> k in s
  }

  lemma {:induction false} AscendingExists(s: set<int>)
    ensures exists ks :: Increasing(ks) && Enumerates(ks, s)
    decreases |s|
  {
    if s == {} {
      assert Increasing([]) && Enumerates([], s);
    } else {
      var m := Min(s);
      AscendingExists(s - {m});
      var rest :| Increasing(rest) && Enumerates(rest, s - {m});
      var ks := [m] + rest;
      forall i, j | 0 <= i < j < |ks| ensures ks[i] < ks[j] {
        assert ks[j] == rest[j - 1] && rest[j - 1] in rest;
        if i > 0 {
          assert ks[i] == rest[i - 1];
        }
      }
      forall k ensures k in ks <==> k in s {
        if k in s && k != m {
          assert k in rest;
        }
      }
      assert Increasing(ks) && Enumerates(ks, s);
    }
  }

  /** The lines of `s`, each once, smallest first. */
  ghost function Ascending(s: set<int>): (ks: seq<int>)
    ensures Increasing(ks) && Enumerates(ks, s)
  {
    AscendingExists(s);
    var ks :| Increasing(ks) && Enumerates(ks, s); ks
  }

  /** Dropping the first line of an ascending enumeration enumerates the rest of the set. */
  lemma AscendingTail(ks: seq<int>, s: set<int>)
    requires Increasing(ks) && Enumerates(ks, s) && ks != []
    ensures Increasing(ks[1..]) && Enumerates(ks[1..], s - {ks[0]})
    ensures forall k :: k in s ==> ks[0] <= k
  {
    forall k ensures k in ks[1..] <==> k in s - {ks[0]} {
      if k in ks[1..] {
        var j :| 1 <= j < |ks| && ks[j] == k;
        assert ks[0] < ks[j];
      }
      if k in s - {ks[0]} {
        assert k in ks;
        var j :| 0 <= j < |ks| && ks[j] == k;
        assert j != 0;
        assert ks[1..][j - 1] == k;
      }
    }
    forall k | k in s ensures ks[0] <= k {
      assert k in ks;
      var j :| 0 <= j < |ks| && ks[j] == k;
      assert j == 0 || ks[0] < ks[j];
    }
  }

  /** Only one strictly increasing sequence enumerates a given set: the ascending one. */
  lemma {:induction false} AscendingUnique(ks: seq<int>, ks': seq<int>, s: set<int>)
    requires Increasing(ks) && Enumerates(ks, s)
    requires Increasing(ks') && Enumerates(ks', s)
    ensures ks == ks'
    decreases |ks|
  {
    assert ks != [] ==> ks[0] in ks;
    assert ks' != [] ==> ks'[0] in ks';
    if ks != [] {
      assert ks' != [] by {
        assert ks[0] in ks';
      }
      AscendingTail(ks, s);
      AscendingTail(ks', s);
      assert ks[0] in s && ks'[0] in s;
      assert ks[0] == ks'[0];
      AscendingUnique(ks[1..], ks'[1..], s - {ks[0]});
      assert ks == [ks[0]] + ks[1..];
      assert ks' == [ks'[0]] + ks'[1..];
    }
  }

  /** The ascending sort of a key set (`R.sort((a, b) => a - b, keys)`). */
  method AscendingKeys(s: set<int>) returns (ks: seq<int>)
    ensures ks == Ascending(s)
  {
    ks := [];
    var rest := s;
    while rest != {}
      invariant rest <= s
      invariant Increasing(ks)
      invariant forall k :: k in ks <==> k in s && k !in rest
      invariant forall i, k :: 0 <= i < |ks| && k in rest ==> ks[i] < k
      decreases |rest|
    {
      ghost var least := Min(rest);
      var m :| m in rest && forall k :: k in rest ==> m <= k;
      ks := ks + [m];
      rest := rest - {m};
    }
    AscendingUnique(ks, Ascending(s), s);
  }

  /** In an ascending enumeration of a set, a member below `ks[i]` occurs before index `i`. */
  lemma AscendingBefore(ks: seq<int>, i: int, k: int)
    requires Increasing(ks) && 0 <= i < |ks|
    requires k in ks
    ensures k < ks[i] <==> k in ks[..i]
  {
    var j :| 0 <= j < |ks| && ks[j] == k;
    if k < ks[i] {
      assert j < i;
      assert ks[..i][j] == k;
    }
    if k in ks[..i] {
      var j' :| 0 <= j' < i && ks[..i][j'] == k;
      assert ks[j'] < ks[i];
    }
  }

  /** Walking an ascending enumeration: the lines visited before index `i` (`done`) never include
      `ks[i]`, and visiting it extends them by one. */
  lemma VisitNext(ks: seq<int>, i: int, done: set<int>)
    requires Increasing(ks) && 0 <= i < |ks|
    requires forall k :: k in done <==> k in ks[..i]
    ensures ks[i] !in done
    ensures forall k :: k in done + {ks[i]} <==> k in ks[..i + 1]
  {
    assert ks[i] in ks;
    AscendingBefore(ks, i, ks[i]);
    assert ks[..i + 1] == ks[..i] + [ks[i]];
  }

  /** Once every index is visited, the visited lines are the whole set. */
  lemma VisitedAll(ks: seq<int>, done: set<int>, s: set<int>)
    requires Enumerates(ks, s)
    requires forall k :: k in done <==> k in ks[..|ks|]
    ensures done == s
  {
    assert ks[..|ks|] == ks;
    forall k ensures k in done <==> k in s {
      assert k in done <==> k in ks;
    }
  }
}
