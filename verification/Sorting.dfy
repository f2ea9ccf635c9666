/** Code-point order on strings, and sorting by a string key. */
module Sorting {
  /** `a` comes before `b` in code-point order. */
  predicate Precedes(a: string, b: string) {
    b != "" && (a == "" || a[0] < b[0] || (a[0] == b[0] && Precedes(a[1..], b[1..])))
  }

  lemma {:induction false} PrecedesTotal(a: string, b: string)
    ensures Precedes(a, b) || a == b || Precedes(b, a)
    ensures !(Precedes(a, b) && Precedes(b, a)) && (a == b ==> !Precedes(a, b))
  {
    if a != "" && b != "" {
      PrecedesTotal(a[1..], b[1..]);
      assert a == [a[0]] + a[1..] && b == [b[0]] + b[1..];
    }
  }

  lemma {:induction false} PrecedesTransitive(a: string, b: string, c: string)
    requires Precedes(a, b) && Precedes(b, c)
    ensures Precedes(a, c)
  {
    if a != "" && a[0] == b[0] == c[0] {
      PrecedesTransitive(a[1..], b[1..], c[1..]);
    }
  }

  function Insert<T>(x: T, s: seq<T>, key: T -> string): seq<T> {
    if s == [] || Precedes(key(x), key(s[0])) then [x] + s else [s[0]] + Insert(x, s[1..], key)
  }

  /** `sorted(s, key=key)`. */
  function SortBy<T>(s: seq<T>, key: T -> string): seq<T> {
    if s == [] then [] else Insert(s[0], SortBy(s[1..], key), key)
  }

  ghost predicate Ascending<T>(s: seq<T>, key: T -> string) {
    forall i, j :: 0 <= i < j < |s| ==> Precedes(key(s[i]), key(s[j]))
  }

  ghost predicate Unique<T>(s: seq<T>, key: T -> string) {
    forall i, j :: 0 <= i < j < |s| ==> key(s[i]) != key(s[j])
  }

  lemma {:induction false} InsertKeeps<T(!new)>(x: T, s: seq<T>, key: T -> string)
    ensures |Insert(x, s, key)| == |s| + 1
    ensures forall y :: y in Insert(x, s, key) <==> y == x || y in s
  {
    if s != [] && !Precedes(key(x), key(s[0])) {
      InsertKeeps(x, s[1..], key);
      assert s == [s[0]] + s[1..];
    }
  }

  lemma {:induction false} InsertAscends<T(!new)>(x: T, s: seq<T>, key: T -> string)
    requires Ascending(s, key) && forall y :: y in s ==> key(y) != key(x)
    ensures Ascending(Insert(x, s, key), key)
  {
    if s != [] {
      PrecedesTotal(key(x), key(s[0]));
      if Precedes(key(x), key(s[0])) {
        forall j | 0 < j < |s| ensures Precedes(key(x), key(s[j])) {
          PrecedesTransitive(key(x), key(s[0]), key(s[j]));
        }
      } else {
        var rest := Insert(x, s[1..], key);
        InsertAscends(x, s[1..], key);
        InsertKeeps(x, s[1..], key);
        forall j | 0 <= j < |rest| ensures Precedes(key(s[0]), key(rest[j])) {
          assert rest[j] in rest;
          if rest[j] != x {
            assert rest[j] in s[1..];
            var i :| 0 <= i < |s[1..]| && s[1..][i] == rest[j];
            assert s[1..][i] == s[i + 1];
          }
        }
      }
    }
  }

  /** Sorting keeps the elements; with distinct keys the result ascends. */
  lemma {:induction false} SortByKeeps<T(!new)>(s: seq<T>, key: T -> string)
    ensures |SortBy(s, key)| == |s|
    ensures forall y :: y in SortBy(s, key) <==> y in s
    ensures Unique(s, key) ==> Ascending(SortBy(s, key), key)
  {
    if s != [] {
      var rest := SortBy(s[1..], key);
      SortByKeeps(s[1..], key);
      InsertKeeps(s[0], rest, key);
      assert s == [s[0]] + s[1..];
      if Unique(s, key) {
        forall y | y in rest ensures key(y) != key(s[0]) {
          assert y in s[1..];
          var i :| 0 <= i < |s[1..]| && s[1..][i] == y;
          assert s[1..][i] == s[i + 1];
        }
        InsertAscends(s[0], rest, key);
      }
    }
  }

  lemma AscendingIsUnique<T(!new)>(s: seq<T>, key: T -> string)
    requires Ascending(s, key)
    ensures Unique(s, key)
  {
    forall i, j | 0 <= i < j < |s| ensures key(s[i]) != key(s[j]) {
      PrecedesTotal(key(s[i]), key(s[j]));
    }
  }

  lemma HeadMember<T(!new)>(s: seq<T>)
    ensures s != [] ==> s[0] in s
  {
  }

  /** There is one ascending arrangement of a set of elements. */
  lemma {:induction false} AscendingDetermined<T(!new)>(s: seq<T>, t: seq<T>, key: T -> string)
    requires Ascending(s, key) && Ascending(t, key)
    requires forall y :: y in s <==> y in t
    ensures s == t
  {
    HeadMember(t);
    if s != [] {
      assert s[0] in t && t != [] && t[0] in s;
      var i :| 0 <= i < |t| && t[i] == s[0];
      var j :| 0 <= j < |s| && s[j] == t[0];
      PrecedesTotal(key(s[0]), key(t[0]));
      assert s[0] == t[0];
      AscendingIsUnique(s, key);
      AscendingIsUnique(t, key);
      forall y ensures y in s[1..] <==> y in t[1..] {
        TailMembers(s, key, y);
        TailMembers(t, key, y);
      }
      AscendingDetermined(s[1..], t[1..], key);
      assert s == [s[0]] + s[1..] && t == [t[0]] + t[1..];
    }
  }

  lemma TailMembers<T(!new)>(s: seq<T>, key: T -> string, y: T)
    requires s != [] && Unique(s, key)
    ensures y in s[1..] <==> y in s && y != s[0]
  {
    if y in s && y != s[0] {
      var i :| 0 <= i < |s| && s[i] == y;
      assert s[1..][i - 1] == y;
    }
    if y in s[1..] {
      var i :| 0 <= i < |s[1..]| && s[1..][i] == y;
      assert s[i + 1] == y;
    }
  }
}
