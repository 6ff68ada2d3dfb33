/** Facts about sequences that several modules use. */
module Sequences {

  lemma {:induction false} Assoc<T>(a: seq<T>, b: seq<T>, c: seq<T>)
    ensures a + b + c == a + (b + c)
  {
  }

  /** A sequence around one of its elements and one of its later positions. */
  lemma {:induction false} Slices<T>(s: seq<T>, i: nat, j: nat)
    requires i < j <= |s|
    ensures s == s[..i] + [s[i]] + s[i + 1..j] + s[j..]
  {
  }

  lemma {:induction false} CutAt<T>(front: seq<T>, back: seq<T>)
    ensures (front + back)[..|front|] == front && (front + back)[|front|..] == back
  {
  }

  lemma {:induction false} CutBehind<T>(front: seq<T>, back: seq<T>, n: nat, m: nat)
    requires n <= m <= |back|
    ensures (front + back)[..|front| + n] == front + back[..n]
    ensures (front + back)[|front| + n..|front| + m] == back[n..m]
    ensures (front + back)[|front| + m..] == back[m..]
  {
  }

  lemma {:induction false} TailCut<T>(s: seq<T>, n: nat, k: nat)
    requires n + k <= |s|
    ensures s == s[..n] + s[n..]
    ensures s[n..][..k] == s[n..n + k] && s[n..][k..] == s[n + k..]
  {
  }

  lemma {:induction false} CutTwice<T>(s: seq<T>, i: nat, j: nat)
    requires i <= j <= |s|
    ensures s == s[..i] + s[i..j] + s[j..]
  {
  }

  /** How far `s` goes before the first element that stops it. */
  function Before<T>(s: seq<T>, stops: T -> bool): (n: nat)
    ensures n <= |s| && (n < |s| ==> stops(s[n])) && forall i :: 0 <= i < n ==> !stops(s[i])
  {
    if s == [] || stops(s[0]) then 0 else 1 + Before(s[1..], stops)
  }

  lemma {:induction false} BeforeEnds<T>(s: seq<T>, rest: seq<T>, stops: T -> bool)
    requires (forall i :: 0 <= i < |s| ==> !stops(s[i])) && (rest == [] || stops(rest[0]))
    ensures Before(s + rest, stops) == |s|
    decreases |s|
  {
    if s == [] {
      assert s + rest == rest;
    } else {
      assert (s + rest)[1..] == s[1..] + rest;
      BeforeEnds(s[1..], rest, stops);
    }
  }

  /** `a` is a subsequence of `b`: it can be found in `b` at increasing positions. */
  ghost predicate EmbedsAt<T>(a: seq<T>, b: seq<T>, at: seq<nat>) {
    && |at| == |a|
    && (forall k :: 0 <= k < |at| ==> at[k] < |b| && a[k] == b[at[k]])
    && (forall k, l :: 0 <= k < l < |at| ==> at[k] < at[l])
  }

  ghost predicate Subsequence<T>(a: seq<T>, b: seq<T>) {
    exists at :: EmbedsAt(a, b, at)
  }

  lemma {:induction false} NothingLeft<T>(b: seq<T>)
    ensures Subsequence([], b)
  {
    assert EmbedsAt([], b, []);
  }

  lemma {:induction false} MatchHead<T>(a: seq<T>, b: seq<T>)
    requires a != [] && b != [] && a[0] == b[0]
    ensures Subsequence(a, b) <==> Subsequence(a[1..], b[1..])
  {
    if Subsequence(a, b) {
      var at :| EmbedsAt(a, b, at);
      assert forall k :: 1 <= k < |at| ==> at[k] > at[0] >= 0;
      assert EmbedsAt(a[1..], b[1..], seq(|a| - 1, k requires 0 <= k < |a| - 1 => at[k + 1] - 1));
    }
    if Subsequence(a[1..], b[1..]) {
      var at :| EmbedsAt(a[1..], b[1..], at);
      assert EmbedsAt(a, b, seq(|a|, k requires 0 <= k < |a| => if k == 0 then 0 else at[k - 1] + 1));
    }
  }

  lemma {:induction false} SkipHead<T>(a: seq<T>, b: seq<T>)
    requires a != [] && b != [] && a[0] != b[0]
    ensures Subsequence(a, b) <==> Subsequence(a, b[1..])
  {
    if Subsequence(a, b) {
      var at :| EmbedsAt(a, b, at);
      assert at[0] > 0;
      assert forall k :: 0 <= k < |at| ==> at[k] >= at[0];
      assert EmbedsAt(a, b[1..], seq(|a|, k requires 0 <= k < |a| => at[k] - 1));
    }
    if Subsequence(a, b[1..]) {
      var at :| EmbedsAt(a, b[1..], at);
      assert EmbedsAt(a, b, seq(|a|, k requires 0 <= k < |a| => at[k] + 1));
    }
  }

  lemma {:induction false} NothingToMatch<T>(a: seq<T>)
    ensures Subsequence(a, []) <==> a == []
  {
    NothingLeft<T>([]);
    if at :| EmbedsAt(a, [], at) {
      assert |at| > 0 ==> at[0] < 0;
    }
  }

  lemma {:induction false} SubsequenceSnoc<T>(a: seq<T>, b: seq<T>, x: T)
    requires Subsequence(a, b)
    ensures Subsequence(a, b + [x]) && Subsequence(a + [x], b + [x])
  {
    var at: seq<nat> :| EmbedsAt(a, b, at);
    assert EmbedsAt(a, b + [x], at);
    assert EmbedsAt(a + [x], b + [x], at + [|b|]);
  }

  lemma {:induction false} SubsequenceWithin<T>(a: seq<T>, b: seq<T>)
    requires Subsequence(a, b)
    ensures multiset(a) <= multiset(b)
    decreases |b|
  {
    if b == [] {
      NothingToMatch(a);
    } else if a != [] {
      assert b == [b[0]] + b[1..] && a == [a[0]] + a[1..];
      if a[0] == b[0] {
        MatchHead(a, b);
        SubsequenceWithin(a[1..], b[1..]);
      } else {
        SkipHead(a, b);
        SubsequenceWithin(a, b[1..]);
      }
    }
  }
}
