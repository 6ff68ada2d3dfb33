/** Dotted keys and the nested merge patch they build (commands/settings.py). */
module Settings {
  import opened Sequences
  import opened Wrappers

  // ---------------------------------------------------------------- keys

  /** The character loop of `_split_key` between two characters. */
  datatype Scan = Scan(parts: seq<string>, current: string, escaped: bool)

  function Next(s: Scan, c: char): Scan {
    if s.escaped then s.(current := s.current + [c], escaped := false)
    else if c == '\\' then s.(escaped := true)
    else if c == '.' then Scan(s.parts + [s.current], "", false)
    else s.(current := s.current + [c])
  }

  function ScanAll(s: Scan, key: string): Scan
    decreases |key|
  {
    if key == "" then s else ScanAll(Next(s, key[0]), key[1..])
  }

  predicate NoEmptyPart(parts: seq<string>) {
    forall i :: 0 <= i < |parts| ==> parts[i] != ""
  }

  /** The parts of a key, unless it ends in an escape or has an empty part. */
  function Parts(key: string): Option<seq<string>> {
    var s := ScanAll(Scan([], "", false), key);
    var parts := s.parts + [s.current];
    if s.escaped || !NoEmptyPart(parts) then None else Some(parts)
  }

  method SplitKey(key: string) returns (r: Option<seq<string>>)
    ensures r == Parts(key)
  {
    var parts: seq<string>, current, escaped := [], "", false;
    assert key[0..] == key;
    for i := 0 to |key|
      invariant ScanAll(Scan(parts, current, escaped), key[i..]) == ScanAll(Scan([], "", false), key)
    {
      var c := key[i];
      assert key[i..][1..] == key[i + 1..];
      if escaped {
        current, escaped := current + [c], false;
      } else if c == '\\' {
        escaped := true;
      } else if c == '.' {
        parts, current := parts + [current], "";
      } else {
        current := current + [c];
      }
    }
    parts := parts + [current];
    if escaped || !NoEmptyPart(parts) { return None; }
    return Some(parts);
  }

  /** Write a part so that its dots and backslashes survive. */
  function EscapePart(part: string): string {
    if part == "" then ""
    else (if part[0] == '.' || part[0] == '\\' then ['\\', part[0]] else [part[0]]) + EscapePart(part[1..])
  }

  function Escape(parts: seq<string>): string
    requires parts != []
  {
    if |parts| == 1 then EscapePart(parts[0]) else EscapePart(parts[0]) + "." + Escape(parts[1..])
  }

  lemma {:induction false} ScanConcat(s: Scan, a: string, b: string)
    ensures ScanAll(s, a + b) == ScanAll(ScanAll(s, a), b)
    decreases |a|
  {
    if a == "" {
      assert a + b == b;
    } else {
      assert (a + b)[1..] == a[1..] + b;
      ScanConcat(Next(s, a[0]), a[1..], b);
    }
  }

  lemma {:induction false} ScanPart(parts: seq<string>, current: string, part: string)
    ensures ScanAll(Scan(parts, current, false), EscapePart(part)) == Scan(parts, current + part, false)
    decreases |part|
  {
    if part == "" {
      assert current + part == current;
    } else {
      var c := part[0];
      var first := if c == '.' || c == '\\' then ['\\', c] else [c];
      var s := Scan(parts, current, false);
      ScanConcat(s, first, EscapePart(part[1..]));
      assert first[1..] == (if c == '.' || c == '\\' then [c] else []) && [c][1..] == "";
      if c == '.' || c == '\\' {
        var mid := Next(s, '\\');
        assert ScanAll(s, first) == ScanAll(mid, [c]);
        assert ScanAll(mid, [c]) == ScanAll(Next(mid, c), "");
      }
      assert ScanAll(s, first) == Scan(parts, current + [c], false);
      ScanPart(parts, current + [c], part[1..]);
      assert current + [c] + part[1..] == current + part;
    }
  }

  lemma {:induction false} ScanEscaped(done: seq<string>, parts: seq<string>)
    requires parts != []
    ensures var s := ScanAll(Scan(done, "", false), Escape(parts)); !s.escaped && s.parts + [s.current] == done + parts
    decreases |parts|
  {
    ScanPart(done, "", parts[0]);
    assert "" + parts[0] == parts[0];
    if |parts| > 1 {
      var s := Scan(done, "", false);
      assert Escape(parts) == EscapePart(parts[0]) + ("." + Escape(parts[1..]));
      ScanConcat(s, EscapePart(parts[0]), "." + Escape(parts[1..]));
      assert ("." + Escape(parts[1..]))[1..] == Escape(parts[1..]);
      assert ScanAll(s, Escape(parts)) == ScanAll(Scan(done + [parts[0]], "", false), Escape(parts[1..]));
      ScanEscaped(done + [parts[0]], parts[1..]);
      assert done + [parts[0]] + parts[1..] == done + parts;
    } else {
      assert parts == [parts[0]];
    }
  }

  /** Splitting an escaped key gives its parts back, for every non-empty list of non-empty parts. */
  lemma {:induction false} SplitEscaped(parts: seq<string>)
    requires parts != [] && NoEmptyPart(parts)
    ensures Parts(Escape(parts)) == Some(parts)
  {
    ScanEscaped([], parts);
    assert [] + parts == parts;
  }

  // ---------------------------------------------------------------- the keys that are accepted

  /** `text` writes the part: each character as it is, or behind a backslash, as dots and backslashes must be. */
  ghost predicate SpellsPart(text: string, part: string)
    decreases |part|
  {
    if part == "" then text == ""
    else
      || (text != "" && text[0] != '.' && text[0] != '\\' && text[0] == part[0] && SpellsPart(text[1..], part[1..]))
      || (|text| > 1 && text[0] == '\\' && text[1] == part[0] && SpellsPart(text[2..], part[1..]))
  }

  /** `key` writes the parts with dots between them. */
  ghost predicate SpellsKey(key: string, parts: seq<string>)
    decreases |parts|
  {
    if |parts| < 2 then |parts| == 1 && SpellsPart(key, parts[0])
    else exists k :: 0 <= k < |key| && DotAt(key, k) &&
             SpellsPart(key[..k], parts[0]) && SpellsKey(key[k + 1..], parts[1..])
  }

  ghost predicate DotAt(key: string, k: nat)
    requires k < |key|
  {
    key[k] == '.'
  }

  lemma {:induction false} ScanSpelled(parts: seq<string>, current: string, text: string, part: string)
    requires SpellsPart(text, part)
    ensures ScanAll(Scan(parts, current, false), text) == Scan(parts, current + part, false)
    decreases |part|
  {
    if part == "" {
      assert current + part == current;
    } else {
      assert current + [part[0]] + part[1..] == current + part;
      if text[0] == '\\' {
        assert text[1..][1..] == text[2..];
        ScanSpelled(parts, current + [part[0]], text[2..], part[1..]);
      } else {
        ScanSpelled(parts, current + [part[0]], text[1..], part[1..]);
      }
    }
  }

  lemma {:induction false} ScanSpelledKey(done: seq<string>, key: string, parts: seq<string>)
    requires SpellsKey(key, parts)
    ensures var s := ScanAll(Scan(done, "", false), key); !s.escaped && s.parts + [s.current] == done + parts
    decreases |parts|
  {
    assert "" + parts[0] == parts[0];
    if |parts| == 1 {
      ScanSpelled(done, "", key, parts[0]);
      assert parts == [parts[0]];
    } else {
      var k :| 0 <= k < |key| && DotAt(key, k) && SpellsPart(key[..k], parts[0]) && SpellsKey(key[k + 1..], parts[1..]);
      ScanSpelled(done, "", key[..k], parts[0]);
      assert key == key[..k] + key[k..] && key[k..][1..] == key[k + 1..];
      ScanConcat(Scan(done, "", false), key[..k], key[k..]);
      ScanSpelledKey(done + [parts[0]], key[k + 1..], parts[1..]);
      assert done + [parts[0]] + parts[1..] == done + parts;
    }
  }

  /** A key that begins with one more character of the first part. */
  lemma {:induction false} SpellsMore(token: string, c: char, key: string, parts: seq<string>)
    requires SpellsKey(key, parts)
    requires (token == [c] && c != '.' && c != '\\') || token == ['\\', c]
    ensures SpellsKey(token + key, [[c] + parts[0]] + parts[1..])
  {
    var all, first := token + key, [c] + parts[0];
    var more := [first] + parts[1..];
    assert more[0] == first && more[1..] == parts[1..] && first[1..] == parts[0];
    if |parts| == 1 {
      assert all[|token|..] == key;
    } else {
      var k :| 0 <= k < |key| && DotAt(key, k) && SpellsPart(key[..k], parts[0]) && SpellsKey(key[k + 1..], parts[1..]);
      var n := |token| + k;
      assert all[..n] == token + key[..k] && all[..n][|token|..] == key[..k] && all[n + 1..] == key[k + 1..];
      assert DotAt(all, n) && SpellsPart(all[..n], first);
    }
  }

  /** What the machine reads is what the key writes. */
  lemma {:induction false} ScannedSpells(done: seq<string>, current: string, key: string) returns (parts: seq<string>)
    requires !ScanAll(Scan(done, current, false), key).escaped
    ensures SpellsKey(key, parts)
    ensures var s := ScanAll(Scan(done, current, false), key);
            s.parts + [s.current] == done + [current + parts[0]] + parts[1..]
    decreases |key|
  {
    if key == "" {
      parts := [""];
      assert current + "" == current;
    } else if key[0] == '.' {
      var rest := ScannedSpells(done + [current], "", key[1..]);
      parts := [""] + rest;
      assert parts[1..] == rest && DotAt(key, 0) && key[..0] == "";
      assert current + "" == current && "" + rest[0] == rest[0];
      assert rest == [rest[0]] + rest[1..];
    } else {
      var width := if key[0] == '\\' then 2 else 1;
      assert |key| >= width;
      var c := key[width - 1];
      assert width == 2 ==> key[1..][1..] == key[2..];
      var rest := ScannedSpells(done, current + [c], key[width..]);
      parts := [[c] + rest[0]] + rest[1..];
      SpellsMore(key[..width], c, key[width..], rest);
      assert key == key[..width] + key[width..];
      Assoc(current, [c], rest[0]);
    }
  }

  /** A key is accepted, as these parts, exactly when it writes them and none is empty. */
  lemma {:induction false} AcceptedKeys(key: string, parts: seq<string>)
    ensures Parts(key) == Some(parts) <==> SpellsKey(key, parts) && NoEmptyPart(parts)
  {
    if SpellsKey(key, parts) {
      ScanSpelledKey([], key, parts);
      assert [] + parts == parts;
    }
    if Parts(key) == Some(parts) {
      var read := ScannedSpells([], "", key);
      assert "" + read[0] == read[0] && [read[0]] + read[1..] == read;
      assert [] + ["" + read[0]] + read[1..] == [read[0]] + read[1..];
    }
  }

  // ---------------------------------------------------------------- the patch

  /** A nested patch; `Leaf` is any value that is not an object (a removal is one of them). */
  datatype Patch<V> = Leaf(value: V) | Node(children: map<string, Patch<V>>)

  /** What is found by following a path of keys. */
  function At<V>(p: Patch<V>, path: seq<string>): Option<Patch<V>>
    decreases |path|
  {
    if path == [] then Some(p)
    else if p.Leaf? || path[0] !in p.children then None
    else At(p.children[path[0]], path[1..])
  }

  /** Walk to the parent, making objects on the way, and store the value under the last key. */
  function Insert<V>(p: Patch<V>, path: seq<string>, v: V): Option<Patch<V>>
    requires p.Node? && path != []
    decreases |path|
  {
    if |path| == 1 then
      if path[0] in p.children then None else Some(Node(p.children[path[0] := Leaf(v)]))
    else
      var child := if path[0] in p.children then p.children[path[0]] else Node(map[]);
      if !child.Node? then None
      else match Insert(child, path[1..], v)
        case None => None
        case Some(next) => Some(Node(p.children[path[0] := next]))
  }

  ghost predicate IsLeafAt<V>(p: Patch<V>, path: seq<string>) {
    At(p, path).Some? && At(p, path).value.Leaf?
  }

  ghost predicate IsNodeAt<V>(p: Patch<V>, path: seq<string>) {
    At(p, path).Some? && At(p, path).value.Node?
  }

  /** The insertion is refused iff something is at the path or a value sits on the way to it. */
  lemma {:induction false} InsertRefuses<V>(p: Patch<V>, path: seq<string>, v: V)
    requires p.Node? && path != []
    ensures Insert(p, path, v).None? <==> At(p, path).Some? || exists k :: 0 < k < |path| && IsLeafAt(p, path[..k])
    decreases |path|
  {
    assert path[..1] == [path[0]] && path[..1][1..] == [];
    if |path| == 1 {
      assert path[1..] == [];
    } else {
      var empty := Node(map[]);
      var child := if path[0] in p.children then p.children[path[0]] else empty;
      if child.Node? {
        InsertRefuses(child, path[1..], v);
        if path[0] in p.children {
          forall k | 1 < k < |path| ensures IsLeafAt(p, path[..k]) <==> IsLeafAt(child, path[1..][..k - 1]) {
            assert path[..k][1..] == path[1..][..k - 1] && path[..k][0] == path[0];
          }
          if k :| 0 < k < |path[1..]| && IsLeafAt(child, path[1..][..k]) {
            assert IsLeafAt(p, path[..k + 1]);
          }
          assert At(p, path[..1]) == Some(child);
          if k :| 0 < k < |path| && IsLeafAt(p, path[..k]) {
            assert k > 1;
            assert IsLeafAt(child, path[1..][..k - 1]);
          }
        } else {
          forall k | 0 < k < |path| ensures !IsLeafAt(p, path[..k]) {
            assert path[..k][0] == path[0];
          }
        }
      } else {
        assert IsLeafAt(p, path[..1]);
      }
    }
  }

  /** What is found after an insertion: the value, objects on the way to it, and otherwise what was there. */
  lemma {:induction false} InsertAt<V>(p: Patch<V>, path: seq<string>, v: V, q: seq<string>)
    requires p.Node? && path != [] && Insert(p, path, v).Some?
    ensures var next := Insert(p, path, v).value;
            if q == path then At(next, q) == Some(Leaf(v))
            else if q <= path then IsNodeAt(next, q)
            else At(next, q) == At(p, q)
    ensures q <= path && q != path ==> !IsLeafAt(p, q)
    decreases |path|
  {
    if q != [] {
      if |path| == 1 {
        assert q[0] == path[0] ==> (q <= path <==> q == path);
        assert path == [path[0]];
        if q[0] == path[0] && q != path {
          assert |q| > 1 && q[1..] != [];
        }
      } else if q[0] == path[0] {
        var empty := Node(map[]);
        var child := if path[0] in p.children then p.children[path[0]] else empty;
        InsertAt(child, path[1..], v, q[1..]);
        assert q == [q[0]] + q[1..] && path == [path[0]] + path[1..];
        assert q <= path <==> q[1..] <= path[1..];
        if path[0] !in p.children && q[1..] != [] {
          assert At(child, q[1..]) == None;
        }
      }
    }
  }

  /** One setting: where it goes and what it is. */
  datatype Change<V> = Change(path: seq<string>, value: V)

  /** Neither path is a prefix of the other. */
  predicate Apart(a: seq<string>, b: seq<string>) {
    !(a <= b) && !(b <= a)
  }

  ghost predicate NoOverlap<V>(changes: seq<Change<V>>) {
    forall i, j :: 0 <= i < j < |changes| ==> Apart(changes[i].path, changes[j].path)
  }

  ghost predicate OnTheWay<V>(changes: seq<Change<V>>, q: seq<string>) {
    exists i :: 0 <= i < |changes| && q < changes[i].path
  }

  /** The patch holds exactly the changes: their values at their paths, objects on the way, nothing else. */
  ghost predicate HoldsExactly<V(!new)>(p: Patch<V>, changes: seq<Change<V>>) {
    && p.Node? && (forall i :: 0 <= i < |changes| ==> changes[i].path != [])
    && (forall q, v :: q != [] ==> (At(p, q) == Some(Leaf(v)) <==> Change(q, v) in changes))
    && (forall q :: q != [] ==> (IsNodeAt(p, q) <==> OnTheWay(changes, q)))
  }

  /** One more change fits iff its path is apart from all earlier ones. */
  lemma {:induction false} InsertFits<V(!new)>(p: Patch<V>, changes: seq<Change<V>>, c: Change<V>)
    requires HoldsExactly(p, changes) && c.path != []
    ensures Insert(p, c.path, c.value).Some? <==> forall i :: 0 <= i < |changes| ==> Apart(changes[i].path, c.path)
  {
    InsertRefuses(p, c.path, c.value);
    if i :| 0 <= i < |changes| && !Apart(changes[i].path, c.path) {
      assert changes[i] == Change(changes[i].path, changes[i].value);
      if changes[i].path == c.path {
        assert At(p, c.path) == Some(Leaf(changes[i].value));
      } else if c.path <= changes[i].path {
        assert OnTheWay(changes, c.path);
      } else {
        var k := |changes[i].path|;
        assert c.path[..k] == changes[i].path;
        assert At(p, c.path[..k]) == Some(Leaf(changes[i].value));
        assert IsLeafAt(p, c.path[..k]);
      }
    }
    if At(p, c.path).Some? {
      FoundIsOverlap(p, changes, c.path);
    }
    if k :| 0 < k < |c.path| && IsLeafAt(p, c.path[..k]) {
      FoundIsOverlap(p, changes, c.path[..k]);
      var i :| 0 <= i < |changes| && changes[i].path == c.path[..k];
      assert !Apart(changes[i].path, c.path);
    }
  }

  lemma {:induction false} FoundIsOverlap<V(!new)>(p: Patch<V>, changes: seq<Change<V>>, q: seq<string>)
    requires HoldsExactly(p, changes) && q != [] && At(p, q).Some?
    ensures if At(p, q).value.Leaf? then exists i :: 0 <= i < |changes| && changes[i].path == q
            else exists i :: 0 <= i < |changes| && q < changes[i].path
  {
    if At(p, q).value.Leaf? {
      var c := Change(q, At(p, q).value.value);
      assert c in changes;
      var i :| 0 <= i < |changes| && changes[i] == c;
    } else {
      assert OnTheWay(changes, q);
    }
  }

  lemma {:induction false} InsertHolds<V(!new)>(p: Patch<V>, changes: seq<Change<V>>, c: Change<V>)
    requires HoldsExactly(p, changes) && c.path != [] && Insert(p, c.path, c.value).Some?
    ensures HoldsExactly(Insert(p, c.path, c.value).value, changes + [c])
  {
    var next, all := Insert(p, c.path, c.value).value, changes + [c];
    InsertFits(p, changes, c);
    forall q, v | q != [] ensures At(next, q) == Some(Leaf(v)) <==> Change(q, v) in all {
      InsertAt(p, c.path, c.value, q);
      assert Change(q, v) in all <==> Change(q, v) in changes || Change(q, v) == c;
      if Change(q, v) in changes {
        var i :| 0 <= i < |changes| && changes[i] == Change(q, v);
        assert Apart(changes[i].path, c.path);
      }
    }
    forall q | q != [] ensures IsNodeAt(next, q) <==> OnTheWay(all, q) {
      InsertAt(p, c.path, c.value, q);
      if q < c.path {
        assert q < all[|changes|].path;
      }
      if OnTheWay(changes, q) {
        var i :| 0 <= i < |changes| && q < changes[i].path;
        assert q < all[i].path && Apart(changes[i].path, c.path);
      }
      if OnTheWay(all, q) && !(q < c.path) {
        var i :| 0 <= i < |all| && q < all[i].path;
        assert all[i] == changes[i];
      }
    }
  }

  /**
    Building the patch of changes with already split keys: it succeeds iff there is a change and no
    path equals or is a prefix of another, in whatever order they come, and then holds exactly them.
   */
  method BuildPatch<V(!new)>(changes: seq<Change<V>>) returns (r: Option<Patch<V>>)
    requires forall i :: 0 <= i < |changes| ==> changes[i].path != []
    ensures r.Some? <==> changes != [] && NoOverlap(changes)
    ensures r.Some? ==> HoldsExactly(r.value, changes)
  {
    var patch: Patch<V> := Node(map[]);
    assert changes[..0] == [];
    for n := 0 to |changes|
      invariant HoldsExactly(patch, changes[..n]) && NoOverlap(changes[..n])
    {
      InsertFits(patch, changes[..n], changes[n]);
      assert changes[..n + 1] == changes[..n] + [changes[n]];
      var next := Insert(patch, changes[n].path, changes[n].value);
      if next.None? {
        ghost var i :| 0 <= i < n && !Apart(changes[..n][i].path, changes[n].path);
        assert !Apart(changes[i].path, changes[n].path);
        return None;
      }
      InsertHolds(patch, changes[..n], changes[n]);
      patch := next.value;
    }
    assert changes[..|changes|] == changes;
    if changes == [] { return None; }
    return Some(patch);
  }

  /** An assignment or a removal as given on the command line. */
  datatype Setting<V> = Setting(key: string, value: V)

  /** The whole command: split every key in turn, build the patch, refuse an empty one. */
  method BuildFromKeys<V(!new)>(settings: seq<Setting<V>>) returns (r: Option<Patch<V>>)
    ensures r.Some? ==>
              exists changes :: Splits(settings, changes) && NoOverlap(changes) && HoldsExactly(r.value, changes)
    ensures r.None? ==> settings == [] || (exists i :: 0 <= i < |settings| && Parts(settings[i].key).None?) ||
                        (exists changes :: Splits(settings, changes) && !NoOverlap(changes))
  {
    var changes: seq<Change<V>> := [];
    for i := 0 to |settings|
      invariant |changes| == i
      invariant forall k :: 0 <= k < i ==>
                Parts(settings[k].key) == Some(changes[k].path) && changes[k].value == settings[k].value
      invariant forall k :: 0 <= k < i ==> changes[k].path != []
    {
      var parts := SplitKey(settings[i].key);
      if parts.None? { return None; }
      changes := changes + [Change(parts.value, settings[i].value)];
    }
    assert Splits(settings, changes);
    r := BuildPatch(changes);
  }

  ghost predicate Splits<V>(settings: seq<Setting<V>>, changes: seq<Change<V>>) {
    |changes| == |settings| && forall k :: 0 <= k < |settings| ==>
      Parts(settings[k].key) == Some(changes[k].path) && changes[k].value == settings[k].value
  }
}
