/** Bytes as Python sees them. */
module Bytes {
  newtype byte = x: int | 0 <= x < 256

  const LF: byte := 10
  const CR: byte := 13

  /** What `bytes.strip` and `bytes.split` take for white space. */
  predicate IsSpace(b: byte) {
    b == 32 || 9 <= b <= 13
  }

  function RStrip(s: seq<byte>): (r: seq<byte>)
    ensures r <= s && (r == [] || !IsSpace(r[|r| - 1]))
  {
    if s != [] && IsSpace(s[|s| - 1]) then RStrip(s[..|s| - 1]) else s
  }

  function LStrip(s: seq<byte>): seq<byte> {
    if s != [] && IsSpace(s[0]) then LStrip(s[1..]) else s
  }

  function Strip(s: seq<byte>): seq<byte> {
    LStrip(RStrip(s))
  }

  predicate AllSpaces(s: seq<byte>) {
    forall i :: 0 <= i < |s| ==> IsSpace(s[i])
  }

  lemma {:induction false} StripSpaces(s: seq<byte>)
    ensures Strip(s) == [] <==> AllSpaces(s)
    decreases |s|
  {
    if s != [] && IsSpace(s[|s| - 1]) {
      StripSpaces(s[..|s| - 1]);
    } else if s != [] {
      LStripKeepsLast(s);
    }
  }

  lemma {:induction false} LStripKeepsLast(s: seq<byte>)
    requires s != [] && !IsSpace(s[|s| - 1])
    ensures LStrip(s) != []
    decreases |s|
  {
    if IsSpace(s[0]) {
      LStripKeepsLast(s[1..]);
    }
  }

  lemma {:induction false} RStripMore(s: seq<byte>, t: seq<byte>)
    ensures RStrip(s + t) == if AllSpaces(t) then RStrip(s) else s + RStrip(t)
    decreases |t|
  {
    if t == [] {
      assert s + t == s;
    } else if IsSpace(t[|t| - 1]) {
      assert (s + t)[..|s + t| - 1] == s + t[..|t| - 1];
      RStripMore(s, t[..|t| - 1]);
    }
  }

  lemma {:induction false} LStripSpaces(s: seq<byte>, t: seq<byte>)
    requires AllSpaces(s)
    ensures LStrip(s + t) == LStrip(t)
    decreases |s|
  {
    if s == [] {
      assert s + t == t;
    } else {
      assert (s + t)[1..] == s[1..] + t;
      LStripSpaces(s[1..], t);
    }
  }

  lemma {:induction false} RStripAllSpaces(s: seq<byte>)
    requires AllSpaces(s)
    ensures RStrip(s) == []
    decreases |s|
  {
    if s != [] {
      RStripAllSpaces(s[..|s| - 1]);
    }
  }

  /** Leading white space does not matter. */
  lemma {:induction false} StripAfter(s: seq<byte>, t: seq<byte>)
    requires AllSpaces(s)
    ensures Strip(s + t) == Strip(t)
  {
    RStripMore(s, t);
    if AllSpaces(t) {
      RStripAllSpaces(s);
      RStripAllSpaces(t);
    } else {
      LStripSpaces(s, RStrip(t));
    }
  }

  /** Trailing white space does not matter. */
  lemma {:induction false} StripBefore(s: seq<byte>, t: seq<byte>)
    requires AllSpaces(t)
    ensures Strip(s + t) == Strip(s)
  {
    RStripMore(s, t);
  }
}
