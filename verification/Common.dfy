/** What several of the models share. */
module Common {

  newtype Byte = b: int | 0 <= b < 0x100

  datatype Option<T> = None | Some(value: T)

  function Min(a: nat, b: nat): nat { if a < b then a else b }

  /** Address a is one of the n from lo on. */
  predicate Within(a: nat, lo: nat, n: nat) { lo <= a < lo + n }

  predicate Distinct(s: seq<nat>) { forall i, j :: 0 <= i < j < |s| ==> s[i] != s[j] }

  // ---------------------------------------------------------- insertion sort by a key

  predicate Ordered<T>(s: seq<T>, key: T -> nat) { forall i, j :: 0 <= i < j < |s| ==> key(s[i]) < key(s[j]) }

  predicate KeysApart<T>(s: seq<T>, key: T -> nat) { forall i, j :: 0 <= i < j < |s| ==> key(s[i]) != key(s[j]) }

  function Insert<T>(s: seq<T>, x: T, key: T -> nat): seq<T> {
    if s == [] || key(x) < key(s[0]) then [x] + s else [s[0]] + Insert(s[1..], x, key)
  }

  function SortBy<T>(s: seq<T>, key: T -> nat): seq<T> {
    if s == [] then [] else Insert(SortBy(s[1..], key), s[0], key)
  }

  lemma {:induction false} InsertKeeps<T(!new)>(s: seq<T>, x: T, key: T -> nat)
    requires Ordered(s, key) && forall i :: 0 <= i < |s| ==> key(s[i]) != key(x)
    ensures Ordered(Insert(s, x, key), key) && |Insert(s, x, key)| == |s| + 1
    ensures forall y :: y in Insert(s, x, key) <==> y in s || y == x
  {
    if s != [] && !(key(x) < key(s[0])) {
      var t := Insert(s[1..], x, key);
      assert forall i :: 0 <= i < |s[1..]| ==> s[1..][i] == s[i + 1];
      InsertKeeps(s[1..], x, key);
      assert s == [s[0]] + s[1..];
      forall j | 0 <= j < |t| ensures key(s[0]) < key(t[j]) {
        assert t[j] in t;
        if t[j] != x {
          var i :| 0 <= i < |s[1..]| && s[1..][i] == t[j];
          assert s[i + 1] == t[j];
        }
      }
    }
  }

  /** The same elements, each once, in order. */
  lemma {:induction false} SortKeeps<T(!new)>(s: seq<T>, key: T -> nat)
    requires KeysApart(s, key)
    ensures Ordered(SortBy(s, key), key) && |SortBy(s, key)| == |s|
    ensures forall y :: y in SortBy(s, key) <==> y in s
  {
    if s != [] {
      assert forall i :: 0 <= i < |s[1..]| ==> s[1..][i] == s[i + 1];
      SortKeeps(s[1..], key);
      assert s == [s[0]] + s[1..];
      var t := SortBy(s[1..], key);
      forall i | 0 <= i < |t| ensures key(t[i]) != key(s[0]) {
        assert t[i] in t;
        var j :| 0 <= j < |s[1..]| && s[1..][j] == t[i];
        assert s[j + 1] == t[i];
      }
      InsertKeeps(t, s[0], key);
    }
  }
}
