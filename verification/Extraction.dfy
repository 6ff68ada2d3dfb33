/** Import closure of an MCP entry point and the descriptor fixpoint (tools/extract_mcp.py). */
module Extraction {
  import opened Wrappers

  /** A dotted Python name as its parts. */
  type Name = seq<string>

  /** What parsing one module yields: every name it mentions, and those it really imports. */
  datatype Source = Source(mentioned: set<Name>, required: set<Name>)

  /** The modules of the tree; every indexed name is non-empty. */
  datatype Tree = Tree(sources: map<Name, Source>)

  ghost predicate TreeOk(t: Tree) {
    [] !in t.sources
  }

  // ---------------------------------------------------------------- names

  /** Drop trailing parts until an indexed module, or nothing, is left. */
  function Fold(t: Tree, name: Name): (m: Name)
    ensures m <= name && (m != [] ==> m in t.sources)
  {
    if name == [] || name in t.sources then name else Fold(t, name[..|name| - 1])
  }

  /** `Fold` finds the longest indexed prefix. */
  lemma {:induction false} FoldIsLongest(t: Tree, name: Name, k: nat)
    requires TreeOk(t) && 0 < k <= |name| && name[..k] in t.sources
    ensures k <= |Fold(t, name)|
    decreases |name|
  {
    if name !in t.sources {
      assert k < |name| by {
        assert name[..|name|] == name;
      }
      assert name[..|name| - 1][..k] == name[..k];
      FoldIsLongest(t, name[..|name| - 1], k);
    }
  }

  predicate Internal(name: Name) {
    |name| > 1 && name[0] == "audiagentic"
  }

  /** A required internal import that is no module and no package of modules. */
  predicate Unresolved(t: Tree, name: Name) {
    Internal(name) && name !in t.sources && !(exists m :: m in t.sources && name < m)
  }

  predicate Broken(t: Tree, m: Name)
    requires m in t.sources
  {
    exists n :: n in t.sources[m].required && Unresolved(t, n)
  }

  function Imports(t: Tree, m: Name): set<Name>
    requires m in t.sources
  {
    set n | n in t.sources[m].mentioned && Fold(t, n) != [] :: Fold(t, n)
  }

  /** `m` is the longest beginning of the name that is a module. */
  ghost predicate LongestModule(t: Tree, name: Name, m: Name) {
    m != [] && m <= name && m in t.sources && forall k :: |m| < k <= |name| ==> name[..k] !in t.sources
  }

  /** A module imports what the names that it mentions begin with, as far as there are modules. */
  lemma {:induction false} ImportsAre(t: Tree, m: Name, x: Name)
    requires TreeOk(t) && m in t.sources
    ensures x in Imports(t, m) <==> exists n :: n in t.sources[m].mentioned && LongestModule(t, n, x)
  {
    forall n ensures LongestModule(t, n, x) <==> x == Fold(t, n) != [] {
      forall k: nat | 0 < k <= |n| && n[..k] in t.sources ensures k <= |Fold(t, n)| {
        FoldIsLongest(t, n, k);
      }
      if LongestModule(t, n, x) {
        assert n[..|x|] == x && Fold(t, n) == n[..|Fold(t, n)|];
      }
    }
  }

  // ---------------------------------------------------------------- closed sets

  /** Closed under resolved imports and under indexed ancestor packages. */
  ghost predicate Closed(t: Tree, s: set<Name>) {
    && (forall m :: m in s ==> m in t.sources && Imports(t, m) <= s)
    && (forall m, k :: m in s && 0 < k < |m| && m[..k] in t.sources ==> m[..k] in s)
  }

  /** Everything reachable from `m` is in every closed set that holds `m`. */
  ghost predicate Forced(t: Tree, entry: Name, s: set<Name>) {
    forall c :: Closed(t, c) && entry in c ==> s <= c
  }

  /** The least closed set with the entry. */
  ghost predicate IsClosure(t: Tree, entry: Name, s: set<Name>) {
    entry in s && Closed(t, s) && Forced(t, entry, s)
  }

  lemma {:induction false} ClosureUnique(t: Tree, entry: Name, a: set<Name>, b: set<Name>)
    requires IsClosure(t, entry, a) && IsClosure(t, entry, b)
    ensures a == b
  {
  }

  // ---------------------------------------------------------------- the worklist

  method Listed(s: set<Name>) returns (l: seq<Name>)
    ensures forall x :: x in l <==> x in s
  {
    l := [];
    var todo := s;
    while todo != {}
      invariant forall x :: x in l <==> x in s - todo
      invariant todo <= s
      decreases todo
    {
      var x :| x in todo;
      l, todo := l + [x], todo - {x};
    }
  }

  /** What a selected module still needs is selected or pending. */
  ghost predicate Covered(t: Tree, selected: set<Name>, pending: seq<Name>) {
    && (forall m, n :: m in selected && m in t.sources && n in Imports(t, m) ==> n in selected || n in pending)
    && (forall m, k :: m in selected && 0 < k < |m| && m[..k] in t.sources ==> m[..k] in selected || m[..k] in pending)
  }

  ghost function AsSet(s: seq<Name>): set<Name> {
    set x | x in s
  }

  /** The indexed ancestor packages of a module that are not selected yet. */
  method Ancestors(t: Tree, m: Name, selected: set<Name>) returns (l: seq<Name>)
    requires m != []
    ensures forall x :: x in l ==> x in t.sources && exists k :: 0 < k < |m| && x == m[..k]
    ensures forall k :: 0 < k < |m| && m[..k] in t.sources ==> m[..k] in selected || m[..k] in l
  {
    l := [];
    var n := |m| - 1;
    while n > 0
      invariant 0 <= n < |m|
      invariant forall x :: x in l ==> x in t.sources && exists k :: 0 < k < |m| && x == m[..k]
      invariant forall k :: n < k < |m| && m[..k] in t.sources ==> m[..k] in selected || m[..k] in l
    {
      if m[..n] in t.sources && m[..n] !in selected {
        l := l + [m[..n]];
      }
      n := n - 1;
    }
  }

  /**
    The worklist computes the least closed set, unless some module in it has an internal import that
    does not exist.
   */
  method Closure(t: Tree, entry: Name) returns (r: Result<set<Name>, string>)
    requires TreeOk(t)
    ensures entry !in t.sources ==> r.Err?
    ensures r.Ok? ==> IsClosure(t, entry, r.value) && forall m :: m in r.value ==> m in t.sources && !Broken(t, m)
    ensures r.Err? <==>
              entry !in t.sources || exists m :: m in t.sources && Broken(t, m) && Forced(t, entry, {m})
  {
    if entry !in t.sources { return Err("MCP module is absent"); }
    var pending: seq<Name> := [entry];
    var selected: set<Name> := {};
    while pending != []
      invariant AsSet(pending) <= t.sources.Keys && selected <= t.sources.Keys
      invariant Forced(t, entry, selected + AsSet(pending))
      invariant Covered(t, selected, pending)
      invariant entry in selected || entry in pending
      invariant forall m :: m in selected ==> !Broken(t, m)
      decreases t.sources.Keys - selected, |pending|
    {
      var m := pending[|pending| - 1];
      ghost var before := pending;
      assert m in AsSet(before);
      assert before == before[..|before| - 1] + [m];
      pending := pending[..|pending| - 1];
      if m in selected {
        assert selected + AsSet(pending) == selected + AsSet(before);
        continue;
      }
      if Broken(t, m) {
        return Err("Unresolved internal Python import");
      }
      ghost var chosen := selected;
      selected := selected + {m};
      var imported := Listed(Imports(t, m) - selected);
      var parents := Ancestors(t, m, selected);
      StepForced(t, entry, chosen, before, m, imported, parents);
      StepCovered(t, chosen, before, m, imported, parents);
      pending := pending + imported + parents;
    }
    assert selected + AsSet(pending) == selected;
    forall m | m in t.sources && Forced(t, entry, {m}) ensures !Broken(t, m) {
      assert {m} <= selected;
    }
    return Ok(selected);
  }

  lemma {:induction false} StepForced(
    t: Tree, entry: Name, selected: set<Name>, pending: seq<Name>, m: Name, imported: seq<Name>, parents: seq<Name>)
    requires pending != [] && m == pending[|pending| - 1] && m in t.sources
    requires Forced(t, entry, selected + AsSet(pending))
    requires forall x :: x in imported ==> x in Imports(t, m)
    requires forall x :: x in parents ==> x in t.sources && exists k :: 0 < k < |m| && x == m[..k]
    ensures Forced(t, entry, (selected + {m}) + AsSet(pending[..|pending| - 1] + imported + parents))
  {
    forall c | Closed(t, c) && entry in c
        ensures (selected + {m}) + AsSet(pending[..|pending| - 1] + imported + parents) <= c {
      assert m in AsSet(pending);
      assert forall x :: x in pending[..|pending| - 1] ==> x in AsSet(pending);
    }
  }

  lemma {:induction false} StepCovered(
    t: Tree, selected: set<Name>, pending: seq<Name>, m: Name, imported: seq<Name>, parents: seq<Name>)
    requires pending != [] && m == pending[|pending| - 1] && Covered(t, selected, pending) && m in t.sources
    requires forall x :: x in Imports(t, m) ==> x in selected + {m} || x in imported
    requires forall k :: 0 < k < |m| && m[..k] in t.sources ==> m[..k] in selected + {m} || m[..k] in parents
    ensures Covered(t, selected + {m}, pending[..|pending| - 1] + imported + parents)
  {
    assert forall x :: x in pending ==> x == m || x in pending[..|pending| - 1];
  }

  // ---------------------------------------------------------------- the descriptor fixpoint

  /** A component descriptor: the string values it configures, and whether it declares the extracted server. */
  datatype Descriptor = Descriptor(strings: seq<Name>, own: bool)

  predicate SameComponent(s: Name, m: Name) {
    |m| >= 3 && |s| > 3 && m[0] == "audiagentic" && m[1] == "components" && s[..3] == m[..3]
  }

  /** A descriptor takes part when it is the server's own or one of its strings names a selected component. */
  predicate Active(d: Descriptor, selected: set<Name>) {
    d.own || exists i, m :: 0 <= i < |d.strings| && m in selected && SameComponent(d.strings[i], m)
  }

  /** A name as it is written. */
  function Dotted(name: Name): string {
    if name == [] then "" else if |name| == 1 then name[0] else name[0] + "." + Dotted(name[1..])
  }

  ghost predicate NoDots(name: Name) {
    name != [] && forall i :: 0 <= i < |name| ==> '.' !in name[i]
  }

  lemma {:induction false} DotInside(p: string, s: string)
    ensures p + "." <= s ==> '.' in s
  {
    if p + "." <= s {
      assert s[|p|] == (p + ".")[|p|];
    }
  }

  lemma {:induction false} HeadsMatch(p: string, q: string, x: string, y: string)
    requires '.' !in p && '.' !in q
    ensures p + "." + x <= q + "." + y <==> p == q && x <= y
  {
    var a, b := p + "." + x, q + "." + y;
    if p == q && x <= y {
      assert y == x + y[|x|..];
      assert b == a + y[|x|..];
    }
    if a <= b {
      assert a[|p|] == '.' == b[|p|] && (|q| < |a| ==> b[|q|] == '.' == a[|q|]);
      assert |p| == |q|;
      assert p == a[..|p|] == b[..|p|] == q;
      assert x == a[|p| + 1..] && y == b[|p| + 1..];
    }
  }

  lemma {:induction false} PrefixByHead(a: Name, s: Name)
    requires a != [] && s != []
    ensures |a| < |s| && a == s[..|a|] <==> a[0] == s[0] && |a| < |s| && a[1..] == s[1..][..|a| - 1]
  {
    if |a| < |s| {
      assert a == [a[0]] + a[1..] && s[..|a|] == [s[0]] + s[1..][..|a| - 1];
      assert s[..|a|][1..] == s[1..][..|a| - 1];
    }
  }

  /** One dotted name is, with a dot, the beginning of another iff its parts are the first of more parts. */
  lemma {:induction false} DottedPrefix(a: Name, s: Name)
    requires NoDots(a) && NoDots(s)
    ensures Dotted(a) + "." <= Dotted(s) <==> |a| < |s| && a == s[..|a|]
    decreases |a|
  {
    if |s| == 1 {
      DotInside(Dotted(a), s[0]);
    } else if |a| == 1 {
      HeadsMatch(a[0], s[0], "", Dotted(s[1..]));
      assert Dotted(a) + "." == a[0] + "." + "";
      assert a == s[..1] <==> a[0] == s[0];
    } else {
      HeadsMatch(a[0], s[0], Dotted(a[1..]) + ".", Dotted(s[1..]));
      assert Dotted(a) + "." == a[0] + "." + (Dotted(a[1..]) + ".");
      DottedPrefix(a[1..], s[1..]);
      PrefixByHead(a, s);
    }
  }

  /**
    The source's own test: the name begins with the first three parts of the module's and a dot, and the
    module is one of a component.
   */
  lemma {:induction false} ComponentPrefix(s: Name, m: Name)
    requires NoDots(s) && NoDots(m)
    ensures SameComponent(s, m) <==>
            |m| >= 3 && Dotted(["audiagentic", "components"]) + "." <= Dotted(m) && Dotted(m[..3]) + "." <= Dotted(s)
  {
    DottedPrefix(["audiagentic", "components"], m);
    if |m| >= 3 {
      DottedPrefix(m[..3], s);
      assert m[..2] == [m[0], m[1]];
    }
  }

  /** The names among the first `n` that are internal and resolve to a module resolve into the set. */
  ghost predicate Resolves(t: Tree, names: seq<Name>, n: nat, s: set<Name>)
    requires n <= |names|
  {
    forall i :: 0 <= i < n && Internal(names[i]) && Fold(t, names[i]) != [] ==> Fold(t, names[i]) in s
  }

  /** Every internal name an active descriptor configures resolves into the set. */
  ghost predicate DescriptorClosed(t: Tree, ds: seq<Descriptor>, s: set<Name>) {
    forall d :: 0 <= d < |ds| && Active(ds[d], s) ==> Resolves(t, ds[d].strings, |ds[d].strings|, s)
  }

  /** The least set with the seeds that is closed under imports, ancestors and active descriptors. */
  ghost predicate IsExtraction(t: Tree, ds: seq<Descriptor>, seeds: set<Name>, s: set<Name>) {
    && seeds <= s && Closed(t, s) && DescriptorClosed(t, ds, s)
    && forall c :: seeds <= c && Closed(t, c) && DescriptorClosed(t, ds, c) ==> s <= c
  }

  lemma {:induction false} ClosedUnion(t: Tree, a: set<Name>, b: set<Name>)
    requires Closed(t, a) && Closed(t, b)
    ensures Closed(t, a + b)
  {
  }

  /** Nothing outside every closed set with the seeds has been selected. */
  ghost predicate Needed(t: Tree, ds: seq<Descriptor>, seeds: set<Name>, s: set<Name>) {
    forall c :: seeds <= c && Closed(t, c) && DescriptorClosed(t, ds, c) ==> s <= c
  }

  /** No module of the set imports an internal module that does not exist. */
  ghost predicate Sound(t: Tree, s: set<Name>) {
    forall m :: m in s ==> m in t.sources && !Broken(t, m)
  }

  /** A module that every closed set with the seeds holds imports an internal module that does not exist. */
  ghost predicate NeedsMissing(t: Tree, ds: seq<Descriptor>, seeds: set<Name>) {
    exists m :: m in t.sources && Broken(t, m) && Needed(t, ds, seeds, {m})
  }

  /** The same for the modules that the strings of one descriptor add to a closed set. */
  ghost predicate DescriptorNeedsMissing(t: Tree, d: Descriptor, selected: set<Name>) {
    exists m :: m in t.sources && Broken(t, m) && AddsTo(t, d, selected, m)
  }

  ghost predicate AddsTo(t: Tree, d: Descriptor, selected: set<Name>, m: Name) {
    forall c :: Closed(t, c) && selected <= c && Resolves(t, d.strings, |d.strings|, c) ==> m in c
  }

  lemma {:induction false} SoundUnion(t: Tree, a: set<Name>, b: set<Name>)
    requires Sound(t, a) && Sound(t, b)
    ensures Sound(t, a + b)
  {
  }

  /**
    The modules the strings of one descriptor add, and no others; it fails exactly when one of them imports
    an internal module that does not exist.
   */
  method AddDescriptor(t: Tree, d: Descriptor, selected: set<Name>) returns (r: Result<set<Name>, string>)
    requires TreeOk(t) && Closed(t, selected) && Sound(t, selected)
    ensures r.Ok? ==> Sound(t, r.value)
    ensures r.Err? <==> DescriptorNeedsMissing(t, d, selected)
    ensures r.Ok? ==> selected <= r.value && Closed(t, r.value) && Resolves(t, d.strings, |d.strings|, r.value)
    ensures r.Ok? ==> forall c :: Closed(t, c) && selected <= c && Resolves(t, d.strings, |d.strings|, c) ==>
              r.value <= c
  {
    var all := selected;
    for n := 0 to |d.strings|
      invariant selected <= all && Closed(t, all) && Sound(t, all) && Resolves(t, d.strings, n, all)
      invariant forall c :: Closed(t, c) && selected <= c && Resolves(t, d.strings, |d.strings|, c) ==> all <= c
    {
      if Internal(d.strings[n]) {
        var candidate := Fold(t, d.strings[n]);
        if candidate != [] {
          var more := Closure(t, candidate);
          if more.Err? {
            ghost var m :| m in t.sources && Broken(t, m) && Forced(t, candidate, {m});
            forall c | Closed(t, c) && selected <= c && Resolves(t, d.strings, |d.strings|, c) ensures m in c {
              assert candidate in c;
            }
            assert AddsTo(t, d, selected, m);
            return more;
          }
          ClosedUnion(t, all, more.value);
          SoundUnion(t, all, more.value);
          all := all + more.value;
        }
      }
    }
    return Ok(all);
  }

  lemma {:induction false} ActiveGrows(d: Descriptor, s: set<Name>, c: set<Name>)
    requires s <= c && Active(d, s)
    ensures Active(d, c)
  {
  }

  /** What an active descriptor misses is needed by the seeds. */
  lemma {:induction false} MissingIsNeeded(
    t: Tree, ds: seq<Descriptor>, seeds: set<Name>, n: nat, before: set<Name>, all: set<Name>)
    requires n < |ds| && Active(ds[n], before) && before <= all && Needed(t, ds, seeds, all)
    requires DescriptorNeedsMissing(t, ds[n], all)
    ensures NeedsMissing(t, ds, seeds)
  {
    var m :| m in t.sources && Broken(t, m) && AddsTo(t, ds[n], all, m);
    forall c | seeds <= c && Closed(t, c) && DescriptorClosed(t, ds, c) ensures {m} <= c {
      assert all <= c;
      ActiveGrows(ds[n], before, c);
    }
  }

  /**
    One pass over the descriptors, with the components selected when the pass began.  It fails only when the
    seeds need a module with a missing import, and then not always in the first pass.
   */
  method Pass(t: Tree, ds: seq<Descriptor>, selected: set<Name>, ghost seeds: set<Name>)
    returns (r: Result<set<Name>, string>)
    requires TreeOk(t) && Closed(t, selected) && Sound(t, selected) && Needed(t, ds, seeds, selected)
    ensures r.Ok? ==> Sound(t, r.value)
    ensures r.Err? ==> NeedsMissing(t, ds, seeds)
    ensures r.Ok? ==> selected <= r.value && Closed(t, r.value) && Needed(t, ds, seeds, r.value)
    ensures r.Ok? && r.value == selected ==> DescriptorClosed(t, ds, selected)
  {
    var all := selected;
    for n := 0 to |ds|
      invariant selected <= all && Closed(t, all) && Sound(t, all) && Needed(t, ds, seeds, all)
      invariant forall d :: 0 <= d < n && Active(ds[d], selected) ==> Resolves(t, ds[d].strings, |ds[d].strings|, all)
    {
      if Active(ds[n], selected) {
        var more := AddDescriptor(t, ds[n], all);
        if more.Err? {
          MissingIsNeeded(t, ds, seeds, n, selected, all);
          return more;
        }
        forall c | seeds <= c && Closed(t, c) && DescriptorClosed(t, ds, c) ensures more.value <= c {
          ActiveGrows(ds[n], selected, c);
        }
        all := more.value;
      }
    }
    return Ok(all);
  }

  /** A needed module is in the extraction, so one with a missing import rules a sound extraction out. */
  lemma {:induction false} SoundMissesNothing(t: Tree, ds: seq<Descriptor>, seeds: set<Name>, s: set<Name>)
    requires IsExtraction(t, ds, seeds, s) && Sound(t, s)
    ensures !NeedsMissing(t, ds, seeds)
  {
    forall m | m in t.sources && Needed(t, ds, seeds, {m}) ensures !Broken(t, m) {
      assert {m} <= s;
    }
  }

  /** Repeat the passes until one adds nothing; fails exactly when the seeds need a module with a missing import. */
  method Saturate(t: Tree, ds: seq<Descriptor>, ghost seeds: set<Name>, initial: set<Name>)
    returns (r: Result<set<Name>, string>)
    requires TreeOk(t) && seeds <= initial && Closed(t, initial) && Sound(t, initial) && Needed(t, ds, seeds, initial)
    ensures r.Ok? ==> IsExtraction(t, ds, seeds, r.value) && Sound(t, r.value)
    ensures r.Err? <==> NeedsMissing(t, ds, seeds)
  {
    var selected := initial;
    while true
      invariant seeds <= selected && Closed(t, selected) && Sound(t, selected) && Needed(t, ds, seeds, selected)
      invariant selected <= t.sources.Keys
      decreases t.sources.Keys - selected
    {
      var next := Pass(t, ds, selected, seeds);
      if next.Err? { return next; }
      if |next.value| == |selected| {
        SameSize(selected, next.value);
        SoundMissesNothing(t, ds, seeds, selected);
        return Ok(selected);
      }
      assert selected != next.value;
      assert selected < next.value <= t.sources.Keys;
      selected := next.value;
    }
  }

  /** The modules the first `n` references in the configuration resolve to. */
  function Resolved(t: Tree, references: seq<Name>, n: nat): set<Name>
    requires n <= |references|
  {
    set i | 0 <= i < n :: Fold(t, references[i])
  }

  /** The entry point and every module the configuration refers to. */
  function Seeds(t: Tree, entry: Name, references: seq<Name>): set<Name> {
    {entry} + Resolved(t, references, |references|)
  }

  lemma {:induction false} NeededMore(
    t: Tree, ds: seq<Descriptor>, seeds: set<Name>, selected: set<Name>, candidate: Name, more: set<Name>)
    requires Needed(t, ds, seeds, selected) && Closed(t, selected) && candidate in seeds &&
              IsClosure(t, candidate, more)
    ensures Needed(t, ds, seeds, selected + more) && Closed(t, selected + more)
  {
    ClosedUnion(t, selected, more);
  }

  lemma {:induction false} ResolvedMore(t: Tree, references: seq<Name>, n: nat)
    requires n < |references|
    ensures Resolved(t, references, n + 1) == Resolved(t, references, n) + {Fold(t, references[n])}
    ensures Fold(t, references[n]) in Resolved(t, references, |references|)
  {
  }

  /** An unresolvable reference, or one that resolves to the root package only, is refused. */
  predicate Refused(t: Tree, reference: Name) {
    Fold(t, reference) == [] || Fold(t, reference) == ["audiagentic"]
  }

  lemma {:induction false} MissingSeed(t: Tree, ds: seq<Descriptor>, seeds: set<Name>, candidate: Name, m: Name)
    requires candidate in seeds && m in t.sources && Broken(t, m) && Forced(t, candidate, {m})
    ensures NeedsMissing(t, ds, seeds)
  {
    assert Needed(t, ds, seeds, {m});
  }

  /**
    The modules of an extraction: the entry point, everything the configuration refers to, and the least
    set around them that is closed under imports, ancestor packages and active descriptors.  It fails exactly
    when the entry point is no module, a reference is refused, or a module in that set imports an internal
    module that does not exist.
   */
  method Extract(t: Tree, ds: seq<Descriptor>, entry: Name, references: seq<Name>)
    returns (r: Result<set<Name>, string>)
    requires TreeOk(t)
    ensures r.Ok? ==> IsExtraction(t, ds, Seeds(t, entry, references), r.value) && Sound(t, r.value)
    ensures r.Err? <==>
            || entry !in t.sources
            || (exists i :: 0 <= i < |references| && Refused(t, references[i]))
            || NeedsMissing(t, ds, Seeds(t, entry, references))
  {
    ghost var seeds := Seeds(t, entry, references);
    var start := Closure(t, entry);
    if start.Err? {
      if entry in t.sources {
        ghost var m :| m in t.sources && Broken(t, m) && Forced(t, entry, {m});
        MissingSeed(t, ds, seeds, entry, m);
      }
      return start;
    }
    var selected := start.value;
    for n := 0 to |references|
      invariant forall i :: 0 <= i < n ==> !Refused(t, references[i])
      invariant {entry} + Resolved(t, references, n) <= selected
      invariant Closed(t, selected) && Sound(t, selected) && Needed(t, ds, seeds, selected)
    {
      var candidate := Fold(t, references[n]);
      if candidate == [] || candidate == ["audiagentic"] { return Err("Unresolved configured Python reference"); }
      ResolvedMore(t, references, n);
      var more := Closure(t, candidate);
      if more.Err? {
        ghost var m :| m in t.sources && Broken(t, m) && Forced(t, candidate, {m});
        MissingSeed(t, ds, seeds, candidate, m);
        return more;
      }
      NeededMore(t, ds, seeds, selected, candidate, more.value);
      SoundUnion(t, selected, more.value);
      selected := selected + more.value;
    }
    r := Saturate(t, ds, seeds, selected);
  }

  /** The loop compares sizes only; for a growing set that is comparing contents. */
  lemma {:induction false} SameSize(a: set<Name>, b: set<Name>)
    requires a <= b && |a| == |b|
    ensures a == b
  {
    assert b == a + (b - a);
    assert |b| == |a| + |b - a|;
  }
}
