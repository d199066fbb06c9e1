/**
  The room key of a connection: the request's pathname is split at every
  '/', the empty parts are dropped, and the connection is accepted only when
  exactly one part remains; that part names the room.
 */
module Paths {
  import opened Wrappers

  /** JavaScript's `s.split("/")`: the maximal '/'-free runs of `s`, empty
      ones included, so a string with n slashes has n + 1 parts. */
  function Split(s: string): (parts: seq<string>)
    ensures |parts| >= 1
    ensures forall i :: 0 <= i < |parts| ==> '/' !in parts[i]
    decreases |s|
  {
    if s == [] then [[]]
    else
      var rest := Split(s[1..]);
      if s[0] == '/' then [[]] + rest
      else [[s[0]] + rest[0]] + rest[1..]
  }

  /** JavaScript's `parts.join("/")`. */
  function JoinParts(parts: seq<string>): string
  {
    if parts == [] then []
    else if |parts| == 1 then parts[0]
    else parts[0] + ['/'] + JoinParts(parts[1..])
  }

  /** `parts.filter(part => part !== "")`, keeping the order. */
  function NonEmpty(parts: seq<string>): (r: seq<string>)
    ensures forall x :: x in r ==> x in parts && x != []
    ensures forall x :: x in parts && x != [] ==> x in r
    ensures [] !in r && forall x :: x != [] ==> multiset(r)[x] == multiset(parts)[x]
  {
    if parts == [] then []
    else
      assert parts == [parts[0]] + parts[1..];
      (if parts[0] == [] then [] else [parts[0]]) + NonEmpty(parts[1..])
  }

  /** The non-empty path segments of a pathname. */
  function Segments(pathname: string): (r: seq<string>)
    ensures forall x :: x in r ==> x != [] && '/' !in x
    ensures forall x :: x in Split(pathname) && x != [] ==> x in r
  {
    NonEmpty(Split(pathname))
  }

  /** The room a pathname names, or None when the connection must be closed. */
  function RoomKey(pathname: string): (r: Option<string>)
    ensures r.Some? ==> r.value != [] && '/' !in r.value
  {
    var parts := Segments(pathname);
    if |parts| == 1 then
      assert parts[0] in parts;
      Some(parts[0])
    else None
  }

  /** A run of n slashes. */
  function Slashes(n: nat): (s: string)
    ensures |s| == n && forall i :: 0 <= i < n ==> s[i] == '/'
  {
    seq(n, i => '/')
  }

  /** n empty parts, as `split` yields between consecutive slashes. */
  function EmptyParts(n: nat): (ps: seq<string>)
    ensures |ps| == n && forall i :: 0 <= i < n ==> ps[i] == []
  {
    seq(n, i => [])
  }

  lemma JoinConsChar(c: char, t: string, r: seq<string>)
    ensures JoinParts([[c] + t] + r) == [c] + JoinParts([t] + r)
  {
    if r != [] {
      assert ([[c] + t] + r)[1..] == r;
      assert ([t] + r)[1..] == r;
    }
  }

  /** Joining the parts of a split gives the string back. */
  lemma {:induction false} JoinSplit(s: string)
    ensures JoinParts(Split(s)) == s
    decreases |s|
  {
    if s != [] {
      var rest := Split(s[1..]);
      JoinSplit(s[1..]);
      if s[0] == '/' {
        assert ([[]] + rest)[1..] == rest;
      } else if |rest| == 1 {
        assert JoinParts([[s[0]] + rest[0]]) == [s[0]] + rest[0];
      } else {
        var parts := [[s[0]] + rest[0]] + rest[1..];
        assert parts[1..] == rest[1..];
        assert JoinParts(rest) == rest[0] + ['/'] + JoinParts(rest[1..]);
      }
    }
  }

  /** Splitting a join of '/'-free parts gives the parts back. */
  lemma {:induction false} SplitJoin(parts: seq<string>)
    requires |parts| >= 1
    requires forall i :: 0 <= i < |parts| ==> '/' !in parts[i]
    ensures Split(JoinParts(parts)) == parts
    decreases |parts|, |parts[0]|
  {
    var head := parts[0];
    if head == [] {
      if |parts| > 1 {
        var tail := parts[1..];
        assert forall i :: 0 <= i < |tail| ==> '/' !in tail[i] by {
          forall i | 0 <= i < |tail| ensures '/' !in tail[i] { assert tail[i] == parts[i + 1]; }
        }
        SplitJoin(tail);
        var s := JoinParts(parts);
        assert s == ['/'] + JoinParts(tail);
        assert s[1..] == JoinParts(tail);
        assert Split(s) == [[]] + tail;
        assert parts == [[]] + tail;
      }
    } else {
      var c, t := head[0], head[1..];
      assert head == [c] + t;
      assert c != '/' by { assert c in head; }
      var tail := parts[1..];
      var parts' := [t] + tail;
      assert parts == [[c] + t] + tail;
      forall i | 0 <= i < |parts'| ensures '/' !in parts'[i] {
        if i == 0 {
          assert forall x :: x in t ==> x in head;
        } else {
          assert parts'[i] == parts[i];
        }
      }
      SplitJoin(parts');
      JoinConsChar(c, t, tail);
      var s := JoinParts(parts);
      assert s == [c] + JoinParts(parts');
      assert s[1..] == JoinParts(parts');
      assert Split(s) == [[c] + parts'[0]] + parts'[1..];
      assert parts'[1..] == tail;
    }
  }

  lemma {:induction false} JoinTrailing(k: string, b: nat)
    ensures JoinParts([k] + EmptyParts(b)) == k + Slashes(b)
    decreases b
  {
    var ps := [k] + EmptyParts(b);
    if b > 0 {
      JoinTrailing([], b - 1);
      assert ps[1..] == [[]] + EmptyParts(b - 1);
      assert [] + Slashes(b - 1) == Slashes(b - 1);
      assert Slashes(b) == ['/'] + Slashes(b - 1);
      assert JoinParts(ps) == k + ['/'] + Slashes(b - 1);
    } else {
      assert ps == [k];
    }
  }

  lemma {:induction false} JoinEmptyParts(a: nat, k: string, b: nat)
    ensures JoinParts(EmptyParts(a) + [k] + EmptyParts(b)) == Slashes(a) + k + Slashes(b)
    decreases a
  {
    var ps := EmptyParts(a) + [k] + EmptyParts(b);
    if a > 0 {
      JoinEmptyParts(a - 1, k, b);
      assert ps[0] == [];
      assert ps[1..] == EmptyParts(a - 1) + [k] + EmptyParts(b);
      assert Slashes(a) == ['/'] + Slashes(a - 1);
    } else {
      assert ps == [k] + EmptyParts(b);
      JoinTrailing(k, b);
    }
  }

  lemma {:induction false} NonEmptyOfEmptyParts(n: nat)
    ensures NonEmpty(EmptyParts(n)) == []
  {
    if n > 0 {
      NonEmptyOfEmptyParts(n - 1);
      assert EmptyParts(n)[1..] == EmptyParts(n - 1);
    }
  }

  lemma {:induction false} NonEmptyOfSingle(a: nat, k: string, b: nat)
    requires k != []
    ensures NonEmpty(EmptyParts(a) + [k] + EmptyParts(b)) == [k]
    decreases a
  {
    var ps := EmptyParts(a) + [k] + EmptyParts(b);
    if a > 0 {
      NonEmptyOfSingle(a - 1, k, b);
      assert ps[1..] == EmptyParts(a - 1) + [k] + EmptyParts(b);
    } else {
      NonEmptyOfEmptyParts(b);
      assert ps[1..] == EmptyParts(b);
    }
  }

  lemma {:induction false} NonEmptyIsNil(parts: seq<string>)
    requires NonEmpty(parts) == []
    ensures parts == EmptyParts(|parts|)
  {
    if parts != [] {
      NonEmptyIsNil(parts[1..]);
    }
  }

  lemma {:induction false} NonEmptyIsSingle(parts: seq<string>, k: string)
    requires NonEmpty(parts) == [k]
    ensures exists a: nat, b: nat :: parts == EmptyParts(a) + [k] + EmptyParts(b)
  {
    if parts[0] == [] {
      NonEmptyIsSingle(parts[1..], k);
      var a: nat, b: nat :| parts[1..] == EmptyParts(a) + [k] + EmptyParts(b);
      assert parts == EmptyParts(a + 1) + [k] + EmptyParts(b);
    } else {
      assert NonEmpty(parts) == [parts[0]] + NonEmpty(parts[1..]);
      NonEmptyIsNil(parts[1..]);
      assert parts == EmptyParts(0) + [k] + EmptyParts(|parts| - 1);
    }
  }

  /** A pathname names room k exactly when it is k, non-empty and free of
      '/', with any number of slashes before and after it. */
  lemma RoomKeyShape(pathname: string, k: string)
    ensures RoomKey(pathname) == Some(k) <==>
      k != [] && '/' !in k && exists a: nat, b: nat :: pathname == Slashes(a) + k + Slashes(b)
  {
    if RoomKey(pathname) == Some(k) {
      var parts := Split(pathname);
      assert NonEmpty(parts) == [k];
      NonEmptyIsSingle(parts, k);
      var a: nat, b: nat :| parts == EmptyParts(a) + [k] + EmptyParts(b);
      JoinSplit(pathname);
      JoinEmptyParts(a, k, b);
      assert pathname == Slashes(a) + k + Slashes(b);
    }
    if k != [] && '/' !in k && exists a: nat, b: nat :: pathname == Slashes(a) + k + Slashes(b) {
      var a: nat, b: nat :| pathname == Slashes(a) + k + Slashes(b);
      var parts := EmptyParts(a) + [k] + EmptyParts(b);
      forall i | 0 <= i < |parts| ensures '/' !in parts[i] {
        if i != a { assert parts[i] == []; }
      }
      JoinEmptyParts(a, k, b);
      SplitJoin(parts);
      NonEmptyOfSingle(a, k, b);
    }
  }
}
