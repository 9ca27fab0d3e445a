/**
 * The dynamically typed values that the ingestion code receives from parsed
 * dictionaries: strings, integers, booleans, lists, dictionaries and None,
 * with Python's truthiness. A dictionary is its entries in insertion order.
 */
module Values {
  import opened Wrappers

  datatype Value =
    | VStr(s: string)
    | VInt(n: int)
    | VBool(b: bool)
    | VList(elements: seq<Value>)
    | VDict(entries: seq<(string, Value)>)
    | VNone

  type Dict = seq<(string, Value)>

  /** Python's bool(v). */
  predicate Truthy(v: Value) {
    match v
    case VStr(s) => s != []
    case VInt(n) => n != 0
    case VBool(b) => b
    case VList(xs) => xs != []
    case VDict(d) => d != []
    case VNone => false
  }

  /** The PRIMITIVE_TYPES of the ingestion code: str, int and bool. */
  predicate IsPrimitive(v: Value) {
    v.VStr? || v.VInt? || v.VBool?
  }

  /** A dictionary holds each key once. */
  ghost predicate IsDict(d: Dict) {
    forall i, j :: 0 <= i < j < |d| ==> d[i].0 != d[j].0
  }

  /** The key is present. */
  predicate HasKey(d: Dict, k: string) {
    exists i :: 0 <= i < |d| && d[i].0 == k
  }

  /** d.get(k): the value under the first entry with key k. */
  function Get(d: Dict, k: string): (r: Option<Value>)
    ensures r.Some? <==> HasKey(d, k)
    ensures r.Some? ==> exists i :: 0 <= i < |d| && d[i] == (k, r.value)
    decreases |d|
  {
    if d == [] then None
    else if d[0].0 == k then Some(d[0].1)
    else
      var r := Get(d[1..], k);
      assert forall i :: 1 <= i < |d| ==> d[i] == d[1..][i - 1];
      assert HasKey(d, k) ==> HasKey(d[1..], k) by {
        if HasKey(d, k) {
          var i :| 0 <= i < |d| && d[i].0 == k;
          assert d[1..][i - 1].0 == k;
        }
      }
      r
  }

  /** The entry d.get(k) reads is the first one with key k. */
  lemma {:induction false} GetFirst(d: Dict, k: string)
    ensures Get(d, k).Some? ==>
      exists i :: 0 <= i < |d| && d[i] == (k, Get(d, k).value) && forall j :: 0 <= j < i ==> d[j].0 != k
    decreases |d|
  {
    if d != [] && d[0].0 != k && Get(d, k).Some? {
      var r := Get(d, k);
      GetFirst(d[1..], k);
      var i :| 0 <= i < |d[1..]| && d[1..][i] == (k, r.value) && forall j :: 0 <= j < i ==> d[1..][j].0 != k;
      assert d[i + 1] == (k, r.value);
      forall j | 0 <= j < i + 1 ensures d[j].0 != k {
        if j > 0 { assert d[j] == d[1..][j - 1]; }
      }
    }
  }

  /** d.get(k) or (Python's `or`, falling through on a missing or falsy value). */
  function GetTruthy(d: Dict, k: string): (r: Option<Value>)
    ensures r.Some? ==> Truthy(r.value) && Get(d, k) == r
    ensures r.None? ==> Get(d, k).None? || !Truthy(Get(d, k).value)
  {
    match Get(d, k)
    case Some(v) => if Truthy(v) then Some(v) else None
    case None => None
  }

  /** The entries without key k (d.pop(k) on a dictionary that holds k at most once). */
  function Without(d: Dict, k: string): (r: Dict)
    ensures |r| <= |d|
    ensures !HasKey(r, k)
    ensures forall e :: e in r <==> e in d && e.0 != k
    ensures !HasKey(d, k) ==> r == d
  {
    if d == [] then []
    else
      assert !HasKey(d, k) ==> !HasKey(d[1..], k) by {
        if HasKey(d[1..], k) {
          var i :| 0 <= i < |d[1..]| && d[1..][i].0 == k;
          assert d[i + 1].0 == k;
        }
      }
      if d[0].0 == k then Without(d[1..], k)
      else [d[0]] + Without(d[1..], k)
  }

  /** Dropping a key distributes over concatenation, so the other entries keep their order. */
  lemma {:induction false} WithoutAppend(a: Dict, b: Dict, k: string)
    ensures Without(a + b, k) == Without(a, k) + Without(b, k)
    decreases |a|
  {
    if a == [] {
      assert a + b == b;
    } else {
      assert (a + b)[1..] == a[1..] + b;
      WithoutAppend(a[1..], b, k);
    }
  }

  /** Dropping one key leaves the lookups of every other key as they were. */
  lemma {:induction false} GetWithout(d: Dict, k: string, j: string)
    requires k != j
    ensures Get(Without(d, j), k) == Get(d, k)
    decreases |d|
  {
    if d != [] {
      GetWithout(d[1..], k, j);
    }
  }
}
