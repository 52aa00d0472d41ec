/** The patch server of main.go: the checksum manifest built from the game
    folder at start-up (loadFolderData), and the /check handler that serves it
    with an ETag (checkHandler). */
module PatchServer {
  import opened Bytes
  import opened Strings
  import opened Hex

  /** A SHA-256 digest: 32 bytes. */
  type Digest = s: seq<byte> | |s| == 32 witness seq(32, _ => 0 as byte)

  /** SHA-256 itself is not modelled: every operation takes it as a parameter,
      so nothing is proved that depends on how it computes. */
  type Sha256 = seq<byte> -> Digest

  /** The fields of the configuration that the core reads; the others
      (ports, image folder, client limit) belong to the HTTP servers. */
  datatype Config = Config(gameFolder: seq<byte>, force: bool)

  /** One call of the filepath.WalkDir callback, in walk order. */
  datatype Entry =
    | Dir(path: seq<byte>)
      /** a non-directory; None when opening or reading it fails */
    | File(path: seq<byte>, contents: Option<seq<byte>>)
      /** the walk itself reports an error at this path */
    | WalkFailure(path: seq<byte>)

  /** The global folderData: the manifest served by /check and its ETag. */
  class DirData {
    var checksumHeader: seq<byte>
    var checksumsBody: seq<byte>

    /** Go's zero value: empty header, empty body. */
    constructor ()
      ensures checksumHeader == [] && checksumsBody == []
    {
      checksumHeader := [];
      checksumsBody := [];
    }
  }

  const GitKeepSuffix: seq<byte> := Ascii(".gitkeep")

  /** Entries passed over before any file is opened: directories, and
      non-directories whose full path ends in ".gitkeep". A walk error is
      never skipped, since it is checked first. */
  predicate Skipped(e: Entry) {
    !e.WalkFailure? && (e.Dir? || HasSuffix(e.path, GitKeepSuffix))
  }

  /** An entry on which loadFolderData calls log.Fatal: every walk error, and
      every file that is not skipped but cannot be opened or read. */
  predicate Fails(e: Entry) {
    e.WalkFailure? || (e.File? && !Skipped(e) && e.contents.None?)
  }

  /** An entry that contributes a manifest line. */
  predicate Kept(e: Entry) {
    e.File? && !Skipped(e) && e.contents.Some?
  }

  /** Directories are skipped; a walk error never is, since it is checked
      first; a file is skipped exactly when its full path ends in ".gitkeep". */
  lemma SkippedCases(e: Entry)
    ensures e.Dir? ==> Skipped(e)
    ensures e.WalkFailure? ==> !Skipped(e)
    ensures e.File? ==> (Skipped(e) <==> HasSuffix(e.path, GitKeepSuffix))
  {
  }

  /** A walk error always fails; a directory never does; a file fails exactly
      when it is not a ".gitkeep" path and cannot be read. A skipped entry
      never fails, since it is never opened. */
  lemma FailsCases(e: Entry)
    ensures e.WalkFailure? ==> Fails(e)
    ensures e.Dir? ==> !Fails(e)
    ensures e.File? ==> (Fails(e) <==> !HasSuffix(e.path, GitKeepSuffix) && e.contents.None?)
    ensures Skipped(e) ==> !Fails(e)
  {
  }

  /** Every entry is exactly one of skipped, failing and kept, and a kept entry
      is a file whose contents were read. */
  lemma KeptCases(e: Entry)
    ensures Kept(e) <==> !Skipped(e) && !Fails(e)
    ensures Skipped(e) || Fails(e) || Kept(e)
    ensures Kept(e) ==> e.File? && e.contents.Some? && !HasSuffix(e.path, GitKeepSuffix)
  {
  }

  /** The number of kept entries of a walk. */
  function KeptCount(walk: seq<Entry>): nat {
    if walk == [] then 0 else (if Kept(walk[0]) then 1 else 0) + KeptCount(walk[1..])
  }

  /** The path relative to the game folder, with '/' as separator: the prefix
      is removed only when the path starts with it, and every backslash becomes
      a slash. */
  function Rel(gameFolder: seq<byte>, path: seq<byte>): (r: seq<byte>)
    ensures Backslash !in r
    ensures HasPrefix(path, gameFolder) ==>
      |r| == |path| - |gameFolder| &&
      forall i :: 0 <= i < |r| ==> r[i] == if path[|gameFolder| + i] == Backslash then Slash else path[|gameFolder| + i]
    ensures !HasPrefix(path, gameFolder) ==>
      |r| == |path| &&
      forall i :: 0 <= i < |r| ==> r[i] == if path[i] == Backslash then Slash else path[i]
  {
    ReplaceByte(TrimPrefix(path, gameFolder), Backslash, Slash)
  }

  /** The manifest line for one file: its checksum, a tab, its relative path
      and a newline. The checksum is 64 lowercase hex digits. */
  function ManifestLine(sha: Sha256, gameFolder: seq<byte>, path: seq<byte>, contents: seq<byte>): (line: seq<byte>)
    ensures |line| == 64 + 1 + |Rel(gameFolder, path)| + 1
    ensures line[..64] == HexEncode(sha(contents))
    ensures forall i :: 0 <= i < 64 ==> IsLowerHexDigit(line[i])
    ensures line[64] == Tab
    ensures line[65..|line| - 1] == Rel(gameFolder, path)
    ensures line[|line| - 1] == Newline
  {
    HexEncode(sha(contents)) + [Tab] + Rel(gameFolder, path) + [Newline]
  }

  /** What one walk entry adds to the body (and to the hasher): one line for a
      kept entry, nothing for any other. */
  function Contribution(sha: Sha256, gameFolder: seq<byte>, e: Entry): seq<byte> {
    if Kept(e) then ManifestLine(sha, gameFolder, e.path, e.contents.value) else []
  }

  /** The manifest of a walk: the lines of the kept entries, in walk order. */
  function Body(sha: Sha256, gameFolder: seq<byte>, walk: seq<Entry>): seq<byte> {
    if walk == [] then [] else Contribution(sha, gameFolder, walk[0]) + Body(sha, gameFolder, walk[1..])
  }

  /** An entry adds a line exactly when it is kept, and then it adds its
      manifest line. */
  lemma ContributionCases(sha: Sha256, gameFolder: seq<byte>, e: Entry)
    ensures Contribution(sha, gameFolder, e) == [] <==> !Kept(e)
    ensures Kept(e) ==> Contribution(sha, gameFolder, e) == ManifestLine(sha, gameFolder, e.path, e.contents.value)
  {
  }

  /** The body is empty exactly when no entry is kept, and otherwise ends in a
      newline. */
  lemma {:induction false} BodyShape(sha: Sha256, gameFolder: seq<byte>, walk: seq<Entry>)
    ensures var body := Body(sha, gameFolder, walk);
      (body == [] <==> KeptCount(walk) == 0) && (body != [] ==> body[|body| - 1] == Newline)
  {
    if walk != [] {
      BodyShape(sha, gameFolder, walk[1..]);
      ContributionCases(sha, gameFolder, walk[0]);
    }
  }

  /** The ETag of a body: the hex digest of its SHA-256, in double quotes
      (an opaque-tag of section 2.3 of RFC 7232). */
  function Header(sha: Sha256, body: seq<byte>): (tag: seq<byte>)
    ensures |tag| == 66
    ensures tag[0] == DoubleQuote && tag[65] == DoubleQuote
    ensures forall i :: 1 <= i < 65 ==> IsLowerHexDigit(tag[i])
  {
    [DoubleQuote] + HexEncode(sha(body)) + [DoubleQuote]
  }

  /** The manifest of a concatenated walk is the concatenation of the manifests:
      the body only grows at its end. */
  lemma {:induction false} BodyAppend(sha: Sha256, gameFolder: seq<byte>, a: seq<Entry>, b: seq<Entry>)
    ensures Body(sha, gameFolder, a + b) == Body(sha, gameFolder, a) + Body(sha, gameFolder, b)
  {
    if a != [] {
      var c := Contribution(sha, gameFolder, a[0]);
      assert (a + b)[0] == a[0];
      assert (a + b)[1..] == a[1..] + b;
      BodyAppend(sha, gameFolder, a[1..], b);
      calc {
        Body(sha, gameFolder, a + b);
        c + Body(sha, gameFolder, a[1..] + b);
        c + (Body(sha, gameFolder, a[1..]) + Body(sha, gameFolder, b));
        { AppendAssoc(c, Body(sha, gameFolder, a[1..]), Body(sha, gameFolder, b)); }
        (c + Body(sha, gameFolder, a[1..])) + Body(sha, gameFolder, b);
      }
    } else {
      assert a + b == b;
    }
  }

  /** The manifest of a one-entry walk is that entry's contribution. */
  lemma BodySingle(sha: Sha256, gameFolder: seq<byte>, e: Entry)
    ensures Body(sha, gameFolder, [e]) == Contribution(sha, gameFolder, e)
  {
    assert [e][1..] == [];
  }

  /** Walking one more entry leaves every earlier byte of the body in place and
      adds that entry's contribution: nothing for a skipped entry, one line
      otherwise. */
  lemma BodyStep(sha: Sha256, gameFolder: seq<byte>, walk: seq<Entry>, i: nat)
    requires i < |walk|
    ensures Body(sha, gameFolder, walk[..i + 1]) == Body(sha, gameFolder, walk[..i]) + Contribution(sha, gameFolder, walk[i])
    ensures Skipped(walk[i]) ==> Body(sha, gameFolder, walk[..i + 1]) == Body(sha, gameFolder, walk[..i])
  {
    assert walk[..i + 1] == walk[..i] + [walk[i]];
    BodyAppend(sha, gameFolder, walk[..i], [walk[i]]);
    BodySingle(sha, gameFolder, walk[i]);
  }

  /** Associativity of concatenation, a proof step kept apart to keep the
      proofs that use it small. */
  lemma AppendAssoc(a: seq<byte>, b: seq<byte>, c: seq<byte>)
    ensures (a + b) + c == a + (b + c)
  {
  }

  /** The WalkDir callback of loadFolderData for one entry. A walk error, or a
      file that is not skipped and cannot be read, is fatal (log.Fatal) and
      changes nothing. Otherwise the entry's contribution (one line for a kept
      file, nothing for a skipped entry) is appended to
      folderData.checksumsBody, and the same bytes to those already written to
      the running hasher. */
  method VisitEntry(config: Config, folderData: DirData, sha: Sha256, e: Entry, written: seq<byte>)
    returns (fatal: bool, hashed: seq<byte>)
    modifies folderData
    ensures fatal <==> Fails(e)
    ensures fatal ==> hashed == written && folderData.checksumsBody == old(folderData.checksumsBody)
    ensures !fatal ==>
      hashed == written + Contribution(sha, config.gameFolder, e) &&
      folderData.checksumsBody == old(folderData.checksumsBody) + Contribution(sha, config.gameFolder, e)
    ensures folderData.checksumHeader == old(folderData.checksumHeader)
  {
    hashed := written;
    if e.WalkFailure? {
      return true, hashed;
    }
    if e.Dir? || HasSuffix(e.path, GitKeepSuffix) {
      return false, hashed;
    }
    if e.contents.None? {
      return true, hashed;
    }
    var checksum := HexEncode(sha(e.contents.value));
    var rel := ReplaceByte(TrimPrefix(e.path, config.gameFolder), Backslash, Slash);
    var line := checksum + [Tab] + rel + [Newline];
    assert Kept(e);
    assert line == ManifestLine(sha, config.gameFolder, e.path, e.contents.value);
    folderData.checksumsBody := folderData.checksumsBody + line;
    hashed := hashed + line;
    fatal := false;
  }

  /** loadFolderData: visits the entries in walk order, building the body in
      folderData.checksumsBody and the bytes written to the running hasher
      (`written`); after the walk, checksumHeader is the quoted hex digest of
      everything written. On the first entry that fails the process stops
      (log.Fatal): the index is returned and the header is left as it was. */
  method LoadFolderData(config: Config, folderData: DirData, sha: Sha256, walk: seq<Entry>)
    returns (failedAt: Option<nat>)
    modifies folderData
    ensures failedAt.None? ==>
      (forall j :: 0 <= j < |walk| ==> !Fails(walk[j])) &&
      folderData.checksumsBody == old(folderData.checksumsBody) + Body(sha, config.gameFolder, walk) &&
      folderData.checksumHeader == Header(sha, Body(sha, config.gameFolder, walk))
    ensures failedAt.Some? ==>
      var k := failedAt.value;
      k < |walk| && Fails(walk[k]) && (forall j :: 0 <= j < k ==> !Fails(walk[j])) &&
      folderData.checksumsBody == old(folderData.checksumsBody) + Body(sha, config.gameFolder, walk[..k]) &&
      folderData.checksumHeader == old(folderData.checksumHeader)
  {
    var written: seq<byte> := [];
    var i := 0;
    while i < |walk|
      invariant 0 <= i <= |walk|
      invariant forall j :: 0 <= j < i ==> !Fails(walk[j])
      invariant written == Body(sha, config.gameFolder, walk[..i])
      invariant folderData.checksumsBody == old(folderData.checksumsBody) + written
      invariant folderData.checksumHeader == old(folderData.checksumHeader)
    {
      var fatal;
      fatal, written := VisitEntry(config, folderData, sha, walk[i], written);
      if fatal {
        return Some(i);
      }
      BodyStep(sha, config.gameFolder, walk, i);
      AppendAssoc(old(folderData.checksumsBody), Body(sha, config.gameFolder, walk[..i]), Contribution(sha, config.gameFolder, walk[i]));
      i := i + 1;
    }
    assert walk[..i] == walk;
    folderData.checksumHeader := [DoubleQuote] + HexEncode(sha(written)) + [DoubleQuote];
    failedAt := None;
  }

  /** Start-up: folderData starts at its zero value and is loaded once, so the
      body is exactly the manifest and the header is the tag of that body. */
  method Startup(config: Config, sha: Sha256, walk: seq<Entry>) returns (folderData: DirData, failedAt: Option<nat>)
    ensures fresh(folderData)
    ensures failedAt.None? ==>
      (forall j :: 0 <= j < |walk| ==> !Fails(walk[j])) &&
      folderData.checksumsBody == Body(sha, config.gameFolder, walk) &&
      folderData.checksumHeader == Header(sha, folderData.checksumsBody)
    ensures failedAt.Some? ==>
      failedAt.value < |walk| && Fails(walk[failedAt.value]) &&
      forall j :: 0 <= j < failedAt.value ==> !Fails(walk[j])
  {
    folderData := new DirData();
    failedAt := LoadFolderData(config, folderData, sha, walk);
  }

  const StatusOK: int := 200
  const StatusNotModified: int := 304

  /** What checkHandler writes: the status, the ETag header if set, the body. */
  datatype Response = Response(status: int, etag: Option<seq<byte>>, body: seq<byte>)

  /** checkHandler: a 304 with no ETag and no body exactly when Force is off
      and If-None-Match is byte-for-byte the stored header; otherwise a 200
      with the ETag and the whole manifest. A function of the state it reads,
      so it changes neither the configuration nor folderData. */
  function CheckHandler(config: Config, folderData: DirData, ifNoneMatch: seq<byte>): (resp: Response)
    reads folderData
    ensures resp.status == StatusNotModified <==> !config.force && ifNoneMatch == folderData.checksumHeader
    ensures resp.status == StatusNotModified ==> resp.etag == None && resp.body == []
    ensures resp.status != StatusNotModified ==>
      resp.status == StatusOK &&
      resp.etag == Some(folderData.checksumHeader) &&
      resp.body == folderData.checksumsBody
  {
    if !config.force && ifNoneMatch == folderData.checksumHeader then
      Response(StatusNotModified, None, [])
    else
      Response(StatusOK, Some(folderData.checksumHeader), folderData.checksumsBody)
  }
}
