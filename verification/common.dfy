/** Outcome types shared by every layer, and the few sequence operations the
    store and the search need. Go's `(value, error)` pairs become `Result`. */
module Common {

  datatype Option<+T> = None | Some(value: T)

  /** The errors the adapters hand back to their callers. */
  datatype Error =
    | RecordNotFound               // gorm.ErrRecordNotFound: a point lookup matched no row
    | Infra(cause: string)         // a failure reported by the database or by the Redis server
    | Rejected(constraint: string) // the database refused a write (key, foreign key, unique name)
    | InvalidJson(text: string)    // json.Unmarshal refused the cached text
    | CategoryNotFound             // errors.New("product category not found")
    | UnknownColumn(orderBy: string) // the database refused the ORDER BY text

  datatype Result<+T> = Ok(value: T) | Err(error: Error)

  /** The elements of `s` that satisfy `keep`, in their original order. */
  function Keep<T(!new)>(s: seq<T>, keep: T -> bool): (r: seq<T>)
    ensures |r| <= |s|
    ensures forall x :: x in r <==> x in s && keep(x)
    ensures forall x :: multiset(r)[x] == if keep(x) then multiset(s)[x] else 0
  {
    if s == [] then []
    else
      assert s == [s[0]] + s[1..];
      (if keep(s[0]) then [s[0]] else []) + Keep(s[1..], keep)
  }

  /** Two predicates that agree on every element keep the same elements. */
  lemma {:induction false} KeepAgrees<T(!new)>(s: seq<T>, f: T -> bool, g: T -> bool)
    requires forall x :: x in s ==> f(x) == g(x)
    ensures Keep(s, f) == Keep(s, g)
  {
    if s != [] {
      assert forall x :: x in s[1..] ==> x in s;
      KeepAgrees(s[1..], f, g);
    }
  }

  /** No two elements of `s` share a key: a primary key or a unique column. */
  ghost predicate DistinctBy<T, K>(s: seq<T>, key: T -> K) {
    forall i, j :: 0 <= i < j < |s| ==> key(s[i]) != key(s[j])
  }

  /** Dropping the first row keeps the keys distinct. */
  lemma DistinctTail<T, K>(s: seq<T>, key: T -> K)
    requires s != [] && DistinctBy(s, key)
    ensures DistinctBy(s[1..], key)
    ensures forall y :: y in s[1..] ==> key(y) != key(s[0])
  {
    forall i, j | 0 <= i < j < |s[1..]| ensures key(s[1..][i]) != key(s[1..][j]) {
      assert s[1..][i] == s[i + 1] && s[1..][j] == s[j + 1];
    }
    forall y | y in s[1..] ensures key(y) != key(s[0]) {
      var k :| 0 <= k < |s[1..]| && s[1..][k] == y;
      assert s[k + 1] == y;
    }
  }

  /** Putting a row with a fresh key in front keeps the keys distinct. */
  lemma ConsDistinct<T, K>(x: T, t: seq<T>, key: T -> K)
    requires DistinctBy(t, key)
    requires forall y :: y in t ==> key(y) != key(x)
    ensures DistinctBy([x] + t, key)
  {
    var r := [x] + t;
    forall i, j | 0 <= i < j < |r| ensures key(r[i]) != key(r[j]) {
      assert r[j] == t[j - 1];
      if i > 0 {
        assert r[i] == t[i - 1];
      } else {
        assert t[j - 1] in t;
      }
    }
  }

  /** Dropping rows never creates a duplicate key. */
  lemma {:induction false} KeepDistinct<T(!new), K>(s: seq<T>, keep: T -> bool, key: T -> K)
    requires DistinctBy(s, key)
    ensures DistinctBy(Keep(s, keep), key)
  {
    if s != [] {
      DistinctTail(s, key);
      KeepDistinct(s[1..], keep, key);
      if keep(s[0]) {
        ConsDistinct(s[0], Keep(s[1..], keep), key);
      }
    }
  }

  /** Appending an element with a fresh key keeps the keys distinct. */
  lemma AppendDistinct<T, K>(s: seq<T>, x: T, key: T -> K)
    requires DistinctBy(s, key)
    requires forall i :: 0 <= i < |s| ==> key(s[i]) != key(x)
    ensures DistinctBy(s + [x], key)
  {
    var r := s + [x];
    forall i, j | 0 <= i < j < |r| ensures key(r[i]) != key(r[j]) {
      assert r[i] == s[i];
      if j < |s| {
        assert r[j] == s[j];
      }
    }
  }

  /** Index of the last element of `s` whose key is `k`, or -1 when there is none. */
  function LastIndex<T, K(==)>(s: seq<T>, key: T -> K, k: K): (i: int)
    ensures -1 <= i < |s|
    ensures i >= 0 ==> key(s[i]) == k
    ensures forall j :: i < j < |s| ==> key(s[j]) != k
  {
    if s == [] then -1
    else if key(s[|s| - 1]) == k then |s| - 1
    else LastIndex(s[..|s| - 1], key, k)
  }

  /** When keys are distinct, the last match is the only match. */
  lemma LastIndexIsOnlyMatch<T, K>(s: seq<T>, key: T -> K, k: K, j: int)
    requires DistinctBy(s, key)
    requires 0 <= j < |s| && key(s[j]) == k
    ensures LastIndex(s, key, k) == j
  {
  }
}
