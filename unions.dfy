/**
 * Order-preserving union of sequences: the bookkeeping behind "append only if
 * not already present" loops (Node.add_title over titles, Block.merge_block
 * over items, Block.get_link_types over link types).
 */
module Unions {

  /** No element occurs twice. */
  ghost predicate Distinct<T>(s: seq<T>) {
    forall i, j :: 0 <= i < j < |s| ==> s[i] != s[j]
  }

  /** mine, then each element of theirs, in order, that is not yet present. */
  function Union<T(==)>(mine: seq<T>, theirs: seq<T>): (r: seq<T>)
    ensures |r| >= |mine| && r[..|mine|] == mine
    ensures forall i :: 0 <= i < |r| ==> r[i] in mine || r[i] in theirs
    ensures forall i :: 0 <= i < |theirs| ==> theirs[i] in r
    decreases |theirs|
  {
    if theirs == [] then mine
    else
      var n := |theirs| - 1;
      var u := Union(mine, theirs[..n]);
      assert forall i :: 0 <= i < n ==> theirs[i] == theirs[..n][i];
      if theirs[n] in u then u else u + [theirs[n]]
  }

  /** A prefix of a prefix is a prefix. */
  lemma PrefixOfPrefix<T>(s: seq<T>, n: int, k: int)
    requires 0 <= k <= n <= |s|
    ensures s[..n][..k] == s[..k]
  {
  }

  /** One more element of theirs. */
  lemma UnionSnoc<T>(mine: seq<T>, theirs: seq<T>, x: T)
    ensures Union(mine, theirs + [x]) == if x in Union(mine, theirs) then Union(mine, theirs) else Union(mine, theirs) + [x]
  {
    assert (theirs + [x])[..|theirs|] == theirs;
  }

  /** Adding a single element: appended when absent, nothing when present. */
  lemma UnionOne<T>(mine: seq<T>, x: T)
    ensures Union(mine, [x]) == if x in mine then mine else mine + [x]
  {
    assert [x][..0] == [];
  }

  /** A loop over theirs: one more element is a union with that element alone. */
  lemma UnionPrefixStep<T>(mine: seq<T>, theirs: seq<T>, i: int)
    requires 0 <= i < |theirs|
    ensures Union(mine, theirs[..i + 1]) == Union(Union(mine, theirs[..i]), [theirs[i]])
  {
    assert theirs[..i + 1] == theirs[..i] + [theirs[i]];
    UnionSnoc(mine, theirs[..i], theirs[i]);
    UnionOne(Union(mine, theirs[..i]), theirs[i]);
  }

  /** One turn of a loop that collects theirs into r: the next element is appended unless present. */
  lemma UnionLoopStep<T>(mine: seq<T>, theirs: seq<T>, i: int, r: seq<T>)
    requires 0 <= i < |theirs| && r == Union(mine, theirs[..i])
    ensures Union(mine, theirs[..i + 1]) == if theirs[i] in r then r else r + [theirs[i]]
  {
    UnionSnoc(mine, theirs[..i], theirs[i]);
    assert theirs[..i + 1] == theirs[..i] + [theirs[i]];
  }

  /** The appended part holds no element twice and none that mine already held. */
  lemma {:induction false} UnionAppendsFresh<T>(mine: seq<T>, theirs: seq<T>)
    ensures var r := Union(mine, theirs);
      Distinct(r[|mine|..]) && forall i :: |mine| <= i < |r| ==> r[i] !in mine
    decreases |theirs|
  {
    if theirs != [] {
      var n := |theirs| - 1;
      UnionAppendsFresh(mine, theirs[..n]);
      var u := Union(mine, theirs[..n]);
      if theirs[n] !in u {
        var r := u + [theirs[n]];
        assert r[|mine|..] == u[|mine|..] + [theirs[n]];
        assert theirs[n] !in u[|mine|..];
      }
    }
  }

  /** A union over a sequence without repetitions has none either. */
  lemma UnionDistinct<T>(mine: seq<T>, theirs: seq<T>)
    requires Distinct(mine)
    ensures Distinct(Union(mine, theirs))
  {
    var r := Union(mine, theirs);
    UnionAppendsFresh(mine, theirs);
    forall i, j | 0 <= i < j < |r| ensures r[i] != r[j] {
      if j >= |mine| {
        if i >= |mine| {
          assert r[|mine|..][i - |mine|] == r[i] && r[|mine|..][j - |mine|] == r[j];
        } else {
          assert r[i] == r[..|mine|][i];
        }
      } else {
        assert r[i] == mine[i] && r[j] == mine[j];
      }
    }
  }

  /** When mine already holds every element of theirs, the union is mine. */
  lemma {:induction false} UnionContained<T>(mine: seq<T>, theirs: seq<T>)
    requires forall i :: 0 <= i < |theirs| ==> theirs[i] in mine
    ensures Union(mine, theirs) == mine
    decreases |theirs|
  {
    if theirs != [] {
      var n := |theirs| - 1;
      UnionContained(mine, theirs[..n]);
    }
  }

  /** Merging the same elements twice gives what merging once gives. */
  lemma UnionIdempotent<T>(mine: seq<T>, theirs: seq<T>)
    ensures Union(Union(mine, theirs), theirs) == Union(mine, theirs)
  {
    UnionContained(Union(mine, theirs), theirs);
  }

  /** Starting from nothing, the first element of the union is the first element of theirs. */
  lemma {:induction false} UnionStartsWithFirst<T>(theirs: seq<T>)
    ensures Union([], theirs) == [] <==> theirs == []
    ensures theirs != [] ==> Union([], theirs)[0] == theirs[0]
    decreases |theirs|
  {
    if theirs != [] {
      var n := |theirs| - 1;
      UnionStartsWithFirst(theirs[..n]);
      if n > 0 {
        assert theirs[..n][0] == theirs[0];
      } else {
        assert theirs[..n] == [];
      }
    }
  }

  /** s without the occurrences of x (deleting a key of an insertion-ordered dictionary). */
  function Remove<T(==)>(s: seq<T>, x: T): (r: seq<T>)
    ensures |r| <= |s|
    ensures forall i :: 0 <= i < |r| ==> r[i] in s && r[i] != x
    ensures forall i :: 0 <= i < |s| && s[i] != x ==> s[i] in r
    ensures x !in s ==> r == s
  {
    if s == [] then []
    else
      var rest := Remove(s[1..], x);
      assert forall i :: 1 <= i < |s| ==> s[i] == s[1..][i - 1];
      assert x !in s ==> x !in s[1..];
      if s[0] == x then rest else [s[0]] + rest
  }

  /** Removing distributes over concatenation, so the kept elements stay in their order. */
  lemma {:induction false} RemoveAppend<T>(a: seq<T>, b: seq<T>, x: T)
    ensures Remove(a + b, x) == Remove(a, x) + Remove(b, x)
    decreases |a|
  {
    if a == [] {
      assert a + b == b;
    } else {
      assert (a + b)[1..] == a[1..] + b;
      RemoveAppend(a[1..], b, x);
    }
  }

  /** Removing keeps a sequence free of repetitions. */
  lemma {:induction false} RemoveDistinct<T>(s: seq<T>, x: T)
    requires Distinct(s)
    ensures Distinct(Remove(s, x))
    decreases |s|
  {
    if s != [] {
      assert Distinct(s[1..]) by {
        forall i, j | 0 <= i < j < |s[1..]| ensures s[1..][i] != s[1..][j] {
          assert s[1..][i] == s[i + 1] && s[1..][j] == s[j + 1];
        }
      }
      RemoveDistinct(s[1..], x);
      assert s[0] !in s[1..] by {
        forall i | 0 <= i < |s[1..]| ensures s[1..][i] != s[0] {
          assert s[1..][i] == s[i + 1];
        }
      }
    }
  }

  /** The elements of a sequence. */
  ghost function Elements<T>(s: seq<T>): set<T> {
    set i | 0 <= i < |s| :: s[i]
  }

  /** A sequence without repetitions has as many elements as entries. */
  lemma {:induction false} DistinctElements<T>(s: seq<T>)
    requires Distinct(s)
    ensures |Elements(s)| == |s|
    decreases |s|
  {
    if s != [] {
      var n := |s| - 1;
      var p := s[..n];
      assert Distinct(p) by {
        forall i, j | 0 <= i < j < |p| ensures p[i] != p[j] {
          assert p[i] == s[i] && p[j] == s[j];
        }
      }
      DistinctElements(p);
      assert Elements(s) == Elements(p) + {s[n]} by {
        forall x | x in Elements(s) ensures x in Elements(p) + {s[n]} {
          var i :| 0 <= i < |s| && s[i] == x;
          if i < n { assert p[i] == x; }
        }
        forall x | x in Elements(p) ensures x in Elements(s) {
          var i :| 0 <= i < |p| && p[i] == x;
          assert s[i] == x;
        }
      }
      assert s[n] !in Elements(p) by {
        forall i | 0 <= i < |p| ensures p[i] != s[n] {
          assert p[i] == s[i];
        }
      }
    }
  }

  /** Merging at most one more element after the others is merging it into their union. */
  lemma UnionStep<T>(mine: seq<T>, theirs: seq<T>, step: seq<T>)
    requires |step| <= 1
    ensures Union(mine, theirs + step) == Union(Union(mine, theirs), step)
  {
    if step == [] {
      assert theirs + step == theirs;
    } else {
      var x := step[0];
      assert step == [x];
      UnionStepOne(mine, theirs, x);
    }
  }

  /** Merging one more element after the others is merging it into their union. */
  lemma UnionStepOne<T>(mine: seq<T>, theirs: seq<T>, x: T)
    ensures Union(mine, theirs + [x]) == Union(Union(mine, theirs), [x])
  {
    UnionSnoc(mine, theirs, x);
    UnionOne(Union(mine, theirs), x);
  }
}
