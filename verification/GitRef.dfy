/**
  The event files of the ledger, read from the working tree or from one git ref
  (ledger/current_events.py): `ls-tree` names the files, one `cat-file --batch` reply holds their contents.
 */
module GitRef {
  import opened Bytes
  import opened Wrappers
  import opened Sequences
  import Framing
  import LedgerEvents

  // ---------------------------------------------------------------- the reply

  datatype Blob = Blob(sha: seq<byte>, content: seq<byte>)

  predicate IsName(s: seq<byte>) {
    s != [] && forall i :: 0 <= i < |s| ==> !IsSpace(s[i])
  }

  /** " blob " */
  const KIND: seq<byte> := [32, 98, 108, 111, 98, 32]

  function Header(blob: Blob): seq<byte> {
    blob.sha + KIND + Framing.Decimal(|blob.content|)
  }

  /** What `git cat-file --batch` prints for blobs. */
  function Reply(blobs: seq<Blob>): seq<byte> {
    if blobs == [] then []
    else Header(blobs[0]) + [LF] + blobs[0].content + [LF] + Reply(blobs[1..])
  }

  // ---------------------------------------------------------------- walking the reply

  function WordLength(s: seq<byte>): nat {
    Before(s, IsSpace)
  }

  function Words(s: seq<byte>): seq<seq<byte>> {
    if s == [] then []
    else if IsSpace(s[0]) then Words(s[1..])
    else
      assert WordLength(s) > 0;
      [s[..WordLength(s)]] + Words(s[WordLength(s)..])
  }

  /** Where the line at the front of `s` ends. */
  function FeedIn(s: seq<byte>): (n: Option<nat>)
    ensures n.Some? ==> n.value < |s|
  {
    if s == [] then None
    else if s[0] == LF then Some(0)
    else match FeedIn(s[1..]) case None => None case Some(n) => Some(n + 1)
  }

  /** The size a header line gives. */
  function SizeIn(header: seq<byte>): Option<nat> {
    var words := Words(header);
    if |words| < 3 then None
    else
      match Framing.ParseInt(Framing.StripText(words[2]))
      case None => None
      case Some(size) => if size < 0 then None else Some(size)
  }

  function Min(a: nat, b: nat): nat {
    if a < b then a else b
  }

  /** Where the next header line ends, and the size it gives. */
  datatype Extent = Extent(end: nat, size: nat)

  function NextObject(out: seq<byte>): (x: Option<Extent>)
    ensures x.Some? ==> x.value.end < |out|
  {
    match FeedIn(out)
    case None => None
    case Some(end) => match SizeIn(out[..end]) case None => None case Some(size) => Some(Extent(end, size))
  }

  /** The bytes of the object behind that header line. */
  function ContentAt(out: seq<byte>, x: Extent): seq<byte>
    requires x.end < |out|
  {
    out[x.end + 1..Min(x.end + 1 + x.size, |out|)]
  }

  /** Past the object and the line feed after it. */
  function AfterObject(out: seq<byte>, x: Extent): (n: nat)
    ensures n <= |out|
  {
    Min(x.end + 2 + x.size, |out|)
  }

  /** The contents of the next `count` objects. */
  function Walk(out: seq<byte>, count: nat): Option<seq<seq<byte>>>
    decreases count
  {
    if count == 0 then Some([])
    else
      match NextObject(out)
      case None => None
      case Some(x) =>
        match Walk(out[AfterObject(out, x)..], count - 1)
        case None => None
        case Some(contents) => Some([ContentAt(out, x)] + contents)
  }

  /** `contents` have been read, and `more` is what walking the rest gives. */
  ghost predicate Walked(all: Option<seq<seq<byte>>>, contents: seq<seq<byte>>, more: Option<seq<seq<byte>>>) {
    match more
    case None => all == None
    case Some(m) => all == Some(contents + m)
  }

  lemma {:induction false} WalkedOn(
    all: Option<seq<seq<byte>>>, contents: seq<seq<byte>>, c: seq<byte>, more: seq<seq<byte>>)
    requires Walked(all, contents, Some([c] + more))
    ensures Walked(all, contents + [c], Some(more))
  {
    assert contents + ([c] + more) == contents + [c] + more;
  }

  lemma {:induction false} WalkNext(
    all: Option<seq<seq<byte>>>, contents: seq<seq<byte>>, out: seq<byte>, left: nat, x: Extent)
    requires left > 0 && NextObject(out) == Some(x) && Walked(all, contents, Walk(out, left))
    ensures Walked(all, contents + [ContentAt(out, x)], Walk(out[AfterObject(out, x)..], left - 1))
  {
    match Walk(out[AfterObject(out, x)..], left - 1)
    case None =>
    case Some(more) => WalkedOn(all, contents, ContentAt(out, x), more);
  }

  lemma {:induction false} WalkedNone(more: Option<seq<seq<byte>>>)
    ensures Walked(more, [], more)
  {
    match more
    case None =>
    case Some(m) => assert [] + m == m;
  }

  lemma {:induction false} Further(out: seq<byte>, position: nat, step: nat)
    requires position <= |out| && step <= |out[position..]|
    ensures position + step <= |out| && out[position..][step..] == out[position + step..]
  {
  }

  /** The position in the reply where the object after the one at `position` begins. */
  function NextPosition(out: seq<byte>, position: nat, x: Extent): (n: nat)
    requires position <= |out|
    ensures position <= n <= |out|
  {
    Further(out, position, AfterObject(out[position..], x));
    position + AfterObject(out[position..], x)
  }

  lemma {:induction false} WalkStep(
    all: Option<seq<seq<byte>>>, contents: seq<seq<byte>>, out: seq<byte>, position: nat, left: nat)
    requires left > 0 && position <= |out| && Walked(all, contents, Walk(out[position..], left))
    ensures match NextObject(out[position..])
            case None => all == None
            case Some(x) =>
              Walked(
                all, contents + [ContentAt(out[position..], x)], Walk(out[NextPosition(out, position, x)..], left - 1))
  {
    match NextObject(out[position..])
    case None =>
    case Some(x) =>
      WalkNext(all, contents, out[position..], left, x);
      Further(out, position, AfterObject(out[position..], x));
  }

  lemma {:induction false} WalkEnd(all: Option<seq<seq<byte>>>, contents: seq<seq<byte>>, out: seq<byte>)
    requires Walked(all, contents, Walk(out, 0))
    ensures all == Some(contents)
  {
    assert contents + [] == contents;
  }

  method ReadBlobs(out: seq<byte>, count: nat) returns (r: Option<seq<seq<byte>>>)
    ensures r == Walk(out, count)
  {
    var contents: seq<seq<byte>> := [];
    var position: nat := 0;
    ghost var all := Walk(out, count);
    assert out[0..] == out;
    WalkedNone(all);
    for i := 0 to count
      invariant position <= |out|
      invariant Walked(all, contents, Walk(out[position..], count - i))
    {
      WalkStep(all, contents, out, position, count - i);
      var next := NextObject(out[position..]);
      if next.None? { return None; }
      contents := contents + [ContentAt(out[position..], next.value)];
      position := NextPosition(out, position, next.value);
    }
    WalkEnd(all, contents, out[position..]);
    return Some(contents);
  }

  // ---------------------------------------------------------------- every blob comes back

  lemma {:induction false} FirstWord(w: seq<byte>, rest: seq<byte>)
    requires IsName(w) && (rest == [] || IsSpace(rest[0]))
    ensures Words(w + rest) == [w] + Words(rest)
  {
    BeforeEnds(w, rest, IsSpace);
    assert (w + rest)[..|w|] == w && (w + rest)[|w|..] == rest;
  }

  lemma {:induction false} DecimalIsName(n: nat)
    ensures IsName(Framing.Decimal(n))
  {
    Framing.DecimalValue(n);
    var d := Framing.Decimal(n);
    assert forall i :: 0 <= i < |d| ==> Framing.IsDigit(d[i]);
  }

  lemma {:induction false} KindWord(size: seq<byte>)
    requires IsName(size)
    ensures Words(KIND + size) == [KIND[1..5], size]
  {
    assert (KIND + size)[0] == 32 && (KIND + size)[1..] == KIND[1..5] + ([32] + size);
    FirstWord(KIND[1..5], [32] + size);
    assert ([32] + size)[1..] == size && size + [] == size;
    FirstWord(size, []);
  }

  lemma {:induction false} HeaderWords(sha: seq<byte>, size: seq<byte>)
    requires IsName(sha) && IsName(size)
    ensures Words(sha + KIND + size) == [sha, KIND[1..5], size]
  {
    assert sha + KIND + size == sha + (KIND + size);
    assert (KIND + size)[0] == 32;
    FirstWord(sha, KIND + size);
    KindWord(size);
  }

  lemma {:induction false} HeaderSize(blob: Blob)
    requires IsName(blob.sha)
    ensures SizeIn(Header(blob)) == Some(|blob.content|)
  {
    var d := Framing.Decimal(|blob.content|);
    DecimalIsName(|blob.content|);
    HeaderWords(blob.sha, d);
    Framing.DecimalValue(|blob.content|);
    assert Framing.IsDigit(d[0]) && Framing.IsDigit(d[|d| - 1]);
    assert Framing.StripText(d) == d;
  }

  lemma {:induction false} FeedAfter(line: seq<byte>, rest: seq<byte>)
    requires LF !in line
    ensures FeedIn(line + [LF] + rest) == Some(|line|)
    decreases |line|
  {
    if line == [] {
      assert (line + [LF] + rest)[0] == LF;
    } else {
      assert (line + [LF] + rest)[1..] == line[1..] + [LF] + rest;
      FeedAfter(line[1..], rest);
    }
  }

  lemma {:induction false} HeaderReads(blob: Blob)
    requires IsName(blob.sha)
    ensures LF !in Header(blob) && SizeIn(Header(blob)) == Some(|blob.content|)
  {
    DecimalIsName(|blob.content|);
    HeaderSize(blob);
  }

  lemma {:induction false} Cut(h: seq<byte>, c: seq<byte>, rest: seq<byte>)
    ensures var out := h + [LF] + c + [LF] + rest;
            && out[..|h|] == h && |h| + 2 + |c| <= |out|
            && out[|h| + 1..|h| + 1 + |c|] == c && out[|h| + 2 + |c|..] == rest
            && out == h + [LF] + (c + [LF] + rest)
  {
  }

  lemma {:induction false} ObjectRead(h: seq<byte>, c: seq<byte>, rest: seq<byte>)
    requires LF !in h && SizeIn(h) == Some(|c|)
    ensures var out, x := h + [LF] + c + [LF] + rest, Extent(|h|, |c|);
            NextObject(out) == Some(x) && ContentAt(out, x) == c && out[AfterObject(out, x)..] == rest
  {
    Cut(h, c, rest);
    FeedAfter(h, c + [LF] + rest);
  }

  lemma {:induction false} WalkOne(h: seq<byte>, c: seq<byte>, rest: seq<byte>, count: nat, more: seq<seq<byte>>)
    requires LF !in h && SizeIn(h) == Some(|c|) && Walk(rest, count) == Some(more)
    ensures Walk(h + [LF] + c + [LF] + rest, count + 1) == Some([c] + more)
  {
    ObjectRead(h, c, rest);
  }

  function Contents(blobs: seq<Blob>): seq<seq<byte>> {
    seq(|blobs|, i requires 0 <= i < |blobs| => blobs[i].content)
  }

  lemma {:induction false} ReplyFirst(blobs: seq<Blob>)
    requires blobs != []
    ensures Reply(blobs) == Header(blobs[0]) + [LF] + blobs[0].content + [LF] + Reply(blobs[1..])
    ensures Contents(blobs) == [blobs[0].content] + Contents(blobs[1..])
  {
  }

  /** The walk gives back every blob exactly, whatever bytes it holds. */
  lemma {:induction false} WalkRecovers(blobs: seq<Blob>)
    requires forall i :: 0 <= i < |blobs| ==> IsName(blobs[i].sha)
    ensures Walk(Reply(blobs), |blobs|) == Some(Contents(blobs))
    decreases |blobs|
  {
    if blobs == [] {
      assert Contents(blobs) == [];
    } else {
      var b, rest := blobs[0], blobs[1..];
      HeaderReads(b);
      WalkRecovers(rest);
      ReplyFirst(blobs);
      WalkOne(Header(b), b.content, Reply(rest), |rest|, Contents(rest));
    }
  }

  // ---------------------------------------------------------------- the two directories

  /** An entry of the events directory: a regular file, or a link or directory. */
  datatype Node = Regular(blob: Blob) | Other

  datatype File = File(name: string, content: seq<byte>)

  predicate IsJson(name: string) {
    |name| >= 5 && name[|name| - 5..] == ".json"
  }

  function InsertName(n: string, s: seq<string>): seq<string> {
    if s == [] then [n] else if LedgerEvents.LexLe(n, s[0]) then [n] + s else [s[0]] + InsertName(n, s[1..])
  }

  function SortNames(s: seq<string>): seq<string> {
    if s == [] then [] else InsertName(s[0], SortNames(s[1..]))
  }

  lemma {:induction false} InsertedName(n: string, s: seq<string>, x: string)
    ensures x in InsertName(n, s) <==> x == n || x in s
    ensures |InsertName(n, s)| == |s| + 1
    decreases |s|
  {
    if s != [] && !LedgerEvents.LexLe(n, s[0]) {
      InsertedName(n, s[1..], x);
    }
  }

  lemma {:induction false} SortedNames(s: seq<string>, x: string)
    ensures x in SortNames(s) <==> x in s
    decreases |s|
  {
    if s != [] {
      SortedNames(s[1..], x);
      InsertedName(s[0], SortNames(s[1..]), x);
    }
  }

  ghost predicate Ascending(s: seq<string>) {
    forall i, j :: 0 <= i < j < |s| ==> s[i] != s[j] && LedgerEvents.LexLe(s[i], s[j])
  }

  ghost predicate Distinct(s: seq<string>) {
    forall i, j :: 0 <= i < j < |s| ==> s[i] != s[j]
  }

  lemma {:induction false} AscendingCons(n: string, s: seq<string>)
    requires Ascending(s) && n !in s && (s != [] ==> LedgerEvents.LexLe(n, s[0]))
    ensures Ascending([n] + s)
  {
    forall j | 0 <= j < |s| ensures n != s[j] && LedgerEvents.LexLe(n, s[j]) {
      if j > 0 {
        LedgerEvents.LexTransitive(n, s[0], s[j]);
      }
    }
  }

  lemma {:induction false} InsertAscending(n: string, s: seq<string>)
    requires Ascending(s) && n !in s
    ensures Ascending(InsertName(n, s))
    decreases |s|
  {
    if s == [] || LedgerEvents.LexLe(n, s[0]) {
      AscendingCons(n, s);
      assert s == [] ==> [n] + s == [n];
    } else {
      var rest := InsertName(n, s[1..]);
      InsertAscending(n, s[1..]);
      InsertedName(n, s[1..], s[0]);
      InsertedName(n, s[1..], rest[0]);
      LedgerEvents.LexTotal(n, s[0]);
      AscendingCons(s[0], rest);
    }
  }

  lemma {:induction false} SortAscending(s: seq<string>)
    requires Distinct(s)
    ensures Ascending(SortNames(s))
    decreases |s|
  {
    if s != [] {
      SortAscending(s[1..]);
      SortedNames(s[1..], s[0]);
      InsertAscending(s[0], SortNames(s[1..]));
    }
  }

  lemma {:induction false} HeadIn(s: seq<string>)
    ensures s != [] ==> s[0] in s
  {
  }

  lemma {:induction false} AscendingUnique(a: seq<string>, b: seq<string>)
    requires Ascending(a) && Ascending(b) && forall x :: x in a <==> x in b
    ensures a == b
    decreases |a|
  {
    HeadIn(b);
    if a != [] {
      assert a[0] in b;
      assert b != [] && b[0] in a;
      LedgerEvents.LexTotal(a[0], b[0]);
      assert a[0] == b[0];
      forall x ensures x in a[1..] <==> x in b[1..] {
        assert x in a <==> x in b;
        assert a == [a[0]] + a[1..] && b == [b[0]] + b[1..];
      }
      AscendingUnique(a[1..], b[1..]);
    }
  }

  /** Sorting depends only on which names there are. */
  lemma {:induction false} SortsAlike(a: seq<string>, b: seq<string>)
    requires Distinct(a) && Distinct(b) && forall x :: x in a <==> x in b
    ensures SortNames(a) == SortNames(b)
  {
    SortAscending(a);
    SortAscending(b);
    forall x ensures x in SortNames(a) <==> x in SortNames(b) {
      SortedNames(a, x);
      SortedNames(b, x);
    }
    AscendingUnique(SortNames(a), SortNames(b));
  }

  /** The entries of a directory that are regular JSON files. */
  predicate Wanted(dir: map<string, Node>, name: string) {
    name in dir && dir[name].Regular? && IsJson(name)
  }

  function Keep(dir: map<string, Node>, listing: seq<string>): seq<string> {
    if listing == [] then []
    else (if Wanted(dir, listing[0]) then [listing[0]] else []) + Keep(dir, listing[1..])
  }

  /** Every entry of the directory once, in any order. */
  ghost predicate Lists(listing: seq<string>, dir: map<string, Node>) {
    Distinct(listing) && forall x :: x in listing <==> x in dir
  }

  predicate AllWanted(dir: map<string, Node>, names: seq<string>) {
    forall i :: 0 <= i < |names| ==> Wanted(dir, names[i])
  }

  function BlobsOf(dir: map<string, Node>, names: seq<string>): seq<Blob>
    requires AllWanted(dir, names)
  {
    seq(|names|, i requires 0 <= i < |names| && Wanted(dir, names[i]) => dir[names[i]].blob)
  }

  function FilesOf(dir: map<string, Node>, names: seq<string>): seq<File>
    requires AllWanted(dir, names)
  {
    seq(|names|, i requires 0 <= i < |names| && Wanted(dir, names[i]) => File(names[i], dir[names[i]].blob.content))
  }

  method Named(names: seq<string>, contents: seq<seq<byte>>) returns (files: seq<File>)
    requires |names| == |contents|
    ensures |files| == |names| && forall k :: 0 <= k < |names| ==> files[k] == File(names[k], contents[k])
  {
    files := [];
    for i := 0 to |names|
      invariant |files| == i && forall k :: 0 <= k < i ==> files[k] == File(names[k], contents[k])
    {
      files := files + [File(names[i], contents[i])];
    }
  }

  lemma {:induction false} NamedFiles(dir: map<string, Node>, names: seq<string>, files: seq<File>)
    requires AllWanted(dir, names) && |files| == |names|
    requires forall k :: 0 <= k < |names| ==> files[k] == File(names[k], Contents(BlobsOf(dir, names))[k])
    ensures files == FilesOf(dir, names)
  {
  }

  /** The names asked for at a ref: the regular JSON files, sorted. */
  function RefNames(dir: map<string, Node>, listing: seq<string>): (names: seq<string>)
    ensures AllWanted(dir, names)
  {
    KeptAreWanted(dir, listing);
    SortNames(Keep(dir, listing))
  }

  /**
    Read at a ref: list, keep the regular JSON files, sort, and walk whatever git answers; with one record
    per file, which is git's answer unless a name holds a line feed, that gives exactly the files.
   */
  method ReadAtRef(listing: seq<string>, dir: map<string, Node>, out: seq<byte>) returns (r: Option<seq<File>>)
    ensures var names := RefNames(dir, listing);
            match Walk(out, |names|)
            case None => r == None
            case Some(contents) =>
              r.Some? && |r.value| == |names| == |contents|
              && forall i :: 0 <= i < |names| ==> r.value[i] == File(names[i], contents[i])
    ensures var names := RefNames(dir, listing);
            var blobs := BlobsOf(dir, names);
            out == Reply(blobs) && (forall i :: 0 <= i < |blobs| ==> IsName(blobs[i].sha)) ==>
              r == Some(FilesOf(dir, names))
  {
    var names := RefNames(dir, listing);
    ghost var blobs := BlobsOf(dir, names);
    if names == [] {
      assert FilesOf(dir, names) == [];
      return Some([]);
    }
    if forall i :: 0 <= i < |blobs| ==> IsName(blobs[i].sha) {
      WalkRecovers(blobs);
    }
    var contents := ReadBlobs(out, |names|);
    if contents.None? { return None; }
    WalkLength(out, |names|);
    var files := Named(names, contents.value);
    if contents.value == Contents(blobs) {
      NamedFiles(dir, names, files);
    }
    return Some(files);
  }

  lemma {:induction false} WalkLength(out: seq<byte>, count: nat)
    ensures Walk(out, count).Some? ==> |Walk(out, count).value| == count
    decreases count
  {
    if count > 0 && NextObject(out).Some? {
      WalkLength(out[AfterObject(out, NextObject(out).value)..], count - 1);
    }
  }

  function JsonOf(listing: seq<string>): seq<string> {
    if listing == [] then [] else (if IsJson(listing[0]) then [listing[0]] else []) + JsonOf(listing[1..])
  }

  /** Read in the working tree: a JSON entry that is no regular file is refused. */
  method ReadWorkingTree(listing: seq<string>, dir: map<string, Node>) returns (r: Option<seq<File>>)
    requires Lists(listing, dir)
    ensures AllWanted(dir, SortNames(JsonOf(listing))) ==> r == Some(FilesOf(dir, SortNames(JsonOf(listing))))
    ensures r == None <==> !AllWanted(dir, SortNames(JsonOf(listing)))
  {
    var names := SortNames(JsonOf(listing));
    var files: seq<File> := [];
    for i := 0 to |names|
      invariant |files| == i
      invariant forall k :: 0 <= k < i ==>
                Wanted(dir, names[k]) && files[k] == File(names[k], dir[names[k]].blob.content)
    {
      JsonListed(listing, names[i]);
      if dir[names[i]].Other? { return None; }
      files := files + [File(names[i], dir[names[i]].blob.content)];
    }
    assert AllWanted(dir, names) && files == FilesOf(dir, names);
    return Some(files);
  }

  lemma {:induction false} JsonListed(listing: seq<string>, x: string)
    ensures x in SortNames(JsonOf(listing)) <==> x in listing && IsJson(x)
  {
    SortedNames(JsonOf(listing), x);
    JsonIn(listing, x);
  }

  lemma {:induction false} JsonIn(listing: seq<string>, x: string)
    ensures x in JsonOf(listing) <==> x in listing && IsJson(x)
    ensures Distinct(listing) ==> Distinct(JsonOf(listing))
  {
    if listing != [] {
      JsonIn(listing[1..], x);
      JsonIn(listing[1..], listing[0]);
      assert listing == [listing[0]] + listing[1..];
    }
  }

  lemma {:induction false} KeepIn(dir: map<string, Node>, listing: seq<string>, x: string)
    ensures x in Keep(dir, listing) <==> x in listing && Wanted(dir, x)
    ensures Distinct(listing) ==> Distinct(Keep(dir, listing))
  {
    if listing != [] {
      KeepIn(dir, listing[1..], x);
      KeepIn(dir, listing[1..], listing[0]);
      assert listing == [listing[0]] + listing[1..];
    }
  }

  lemma {:induction false} KeptAreWanted(dir: map<string, Node>, listing: seq<string>)
    ensures AllWanted(dir, SortNames(Keep(dir, listing)))
  {
    var names := SortNames(Keep(dir, listing));
    forall i | 0 <= i < |names| ensures Wanted(dir, names[i]) {
      SortedNames(Keep(dir, listing), names[i]);
      KeepIn(dir, listing, names[i]);
    }
  }

  /**
    For one directory content, in whatever order git and the file system list it, the ref and the working
    tree give the same files exactly when every JSON entry is a regular file; else the working tree refuses.
   */
  lemma {:induction false} RefIsWorkingTree(dir: map<string, Node>, git: seq<string>, disk: seq<string>)
    requires Lists(git, dir) && Lists(disk, dir)
    ensures AllWanted(dir, SortNames(JsonOf(disk))) <==> forall x :: x in dir && IsJson(x) ==> dir[x].Regular?
    ensures AllWanted(dir, SortNames(JsonOf(disk))) ==> SortNames(JsonOf(disk)) == RefNames(dir, git)
  {
    var names := SortNames(JsonOf(disk));
    forall x ensures x in names <==> x in dir && IsJson(x) {
      JsonListed(disk, x);
    }
    if AllWanted(dir, names) {
      forall x | x in dir && IsJson(x) ensures dir[x].Regular? {
        assert x in names;
      }
      forall x ensures x in JsonOf(disk) <==> x in Keep(dir, git) {
        JsonIn(disk, x);
        KeepIn(dir, git, x);
      }
      JsonIn(disk, "");
      KeepIn(dir, git, "");
      SortsAlike(JsonOf(disk), Keep(dir, git));
    }
  }
}
