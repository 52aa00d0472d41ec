/** The reading side of the manifest and of its ETag: a parser that recovers,
    from a body, the (digest, relative path) record of every file, and the
    digest inside a tag. They are the inverses the manifest code is checked
    against. */
module ManifestFormat {
  import opened Bytes
  import opened Hex
  import opened PatchServer

  datatype Record = Record(digest: seq<byte>, rel: seq<byte>)

  /** The record of each kept entry, in walk order. */
  function Records(sha: Sha256, gameFolder: seq<byte>, walk: seq<Entry>): seq<Record> {
    if walk == [] then []
    else
      var rest := Records(sha, gameFolder, walk[1..]);
      if Kept(walk[0]) then [Record(sha(walk[0].contents.value), Rel(gameFolder, walk[0].path))] + rest else rest
  }

  /** The first position of `b` in `s`. */
  function IndexOf(s: seq<byte>, b: byte): (r: Option<nat>)
    ensures r.None? <==> b !in s
    ensures r.Some? ==> r.value < |s| && s[r.value] == b && b !in s[..r.value]
  {
    if s == [] then None
    else if s[0] == b then Some(0)
    else match IndexOf(s[1..], b)
      case None => None
      case Some(j) =>
        assert s[..j + 1] == [s[0]] + s[1..][..j];
        Some(j + 1)
  }

  lemma IndexOfFirst(a: seq<byte>, b: byte, c: seq<byte>)
    requires b !in a
    ensures IndexOf(a + [b] + c, b) == Some(|a|)
  {
    assert (a + [b] + c)[|a|] == b;
  }

  /** Reads a body line by line: 64 hex digits, a tab, a path up to the next
      newline. None when a line does not have that form. */
  function ParseManifest(body: seq<byte>): Option<seq<Record>>
    decreases |body|
  {
    if body == [] then Some([])
    else if |body| < 65 || body[64] != Tab then None
    else
      match (HexDecode(body[..64]), IndexOf(body[65..], Newline))
      case (Some(digest), Some(j)) =>
        (match ParseManifest(body[65 + j + 1..])
         case Some(rest) => Some([Record(digest, body[65..65 + j])] + rest)
         case None => None)
      case _ => None
  }

  /** One line in front of a parsable body gives one more record. */
  lemma ParseLine(sha: Sha256, gameFolder: seq<byte>, path: seq<byte>, contents: seq<byte>, rest: seq<byte>)
    requires Newline !in Rel(gameFolder, path)
    ensures ParseManifest(ManifestLine(sha, gameFolder, path, contents) + rest) ==
      match ParseManifest(rest)
      case Some(records) => Some([Record(sha(contents), Rel(gameFolder, path))] + records)
      case None => None
  {
    HexRoundTrip(sha(contents));
    ParseFields(HexEncode(sha(contents)), sha(contents), Rel(gameFolder, path), rest);
  }

  /** The parser's step on a line given by its fields: 64 digits that decode
      to `digest`, a tab, a path without newline, a newline. */
  lemma ParseFields(hex: seq<byte>, digest: seq<byte>, rel: seq<byte>, rest: seq<byte>)
    requires |hex| == 64 && HexDecode(hex) == Some(digest)
    requires Newline !in rel
    ensures ParseManifest(hex + [Tab] + rel + [Newline] + rest) ==
      match ParseManifest(rest)
      case Some(records) => Some([Record(digest, rel)] + records)
      case None => None
  {
    var body := hex + [Tab] + rel + [Newline] + rest;
    assert body[..64] == hex;
    assert body[64] == Tab;
    assert body[65..] == rel + [Newline] + rest;
    IndexOfFirst(rel, Newline, rest);
    assert body[65..65 + |rel|] == rel;
    assert body[65 + |rel| + 1..] == rest;
  }

  /** Parsing the body of a walk gives back, in walk order, the digest and
      relative path of every kept file, and nothing for the skipped entries,
      provided no relative path holds a newline (a newline in a file name
      would end its line early). */
  lemma {:induction false} ParseBody(sha: Sha256, gameFolder: seq<byte>, walk: seq<Entry>)
    requires forall j :: 0 <= j < |walk| && Kept(walk[j]) ==> Newline !in Rel(gameFolder, walk[j].path)
    ensures ParseManifest(Body(sha, gameFolder, walk)) == Some(Records(sha, gameFolder, walk))
  {
    if walk != [] {
      var e, tail := walk[0], walk[1..];
      assert forall j :: 0 <= j < |tail| ==> tail[j] == walk[j + 1];
      ParseBody(sha, gameFolder, tail);
      if Kept(e) {
        ParseLine(sha, gameFolder, e.path, e.contents.value, Body(sha, gameFolder, tail));
      } else {
        assert Body(sha, gameFolder, walk) == Body(sha, gameFolder, tail);
      }
    }
  }

  /** There is one record per kept entry. */
  lemma {:induction false} RecordsLength(sha: Sha256, gameFolder: seq<byte>, walk: seq<Entry>)
    ensures |Records(sha, gameFolder, walk)| == KeptCount(walk)
  {
    if walk != [] {
      RecordsLength(sha, gameFolder, walk[1..]);
    }
  }

  /** Reading the body back gives exactly one line per kept entry: directories,
      ".gitkeep" paths and failing entries add no line. */
  lemma RecordsCount(sha: Sha256, gameFolder: seq<byte>, walk: seq<Entry>)
    requires forall j :: 0 <= j < |walk| && Kept(walk[j]) ==> Newline !in Rel(gameFolder, walk[j].path)
    ensures ParseManifest(Body(sha, gameFolder, walk)).Some?
    ensures |ParseManifest(Body(sha, gameFolder, walk)).value| == KeptCount(walk)
  {
    ParseBody(sha, gameFolder, walk);
    RecordsLength(sha, gameFolder, walk);
  }

  /** Without the newline premise of ParseBody the manifest is ambiguous: in
      any game folder `g`, a file whose name holds a newline followed by a
      second well-formed line gives the same body as two separate files. */
  lemma NewlineInNameIsAmbiguous(sha: Sha256, g: seq<byte>, x: seq<byte>, y: seq<byte>, c1: seq<byte>, c2: seq<byte>)
    requires Backslash !in x && Backslash !in y
    requires !Strings.HasSuffix(g + x, GitKeepSuffix) && !Strings.HasSuffix(y, GitKeepSuffix)
    requires |y| >= |GitKeepSuffix|
    ensures
      var one := [File(g + (x + [Newline] + HexEncode(sha(c2)) + [Tab] + y), Some(c1))];
      var two := [File(g + x, Some(c1)), File(g + y, Some(c2))];
      one != two && Body(sha, g, one) == Body(sha, g, two)
  {
    var h1, h2 := HexEncode(sha(c1)), HexEncode(sha(c2));
    var q := x + [Newline] + h2 + [Tab];
    var one := [File(g + (q + y), Some(c1))];
    var two := [File(g + x, Some(c1)), File(g + y, Some(c2))];
    assert |one| != |two|;
    NoBackslashJoin(x, h2, y);
    AppendAssoc(g, q, y);
    NotGitKeepJoin(g + q, y);
    NotGitKeepJoin(g, y);
    OneFileBody(sha, g, q + y, c1);
    TwoFileBody(sha, g, x, y, c1, c2);
    Regroup(h1, x, h2, y);
  }

  /** A path ending in a long enough part that is not a ".gitkeep" path is
      not one either. */
  lemma NotGitKeepJoin(p: seq<byte>, y: seq<byte>)
    requires |y| >= |GitKeepSuffix| && !Strings.HasSuffix(y, GitKeepSuffix)
    ensures !Strings.HasSuffix(p + y, GitKeepSuffix)
  {
    SameEnd(p, y, |GitKeepSuffix|);
  }

  /** A string ends as its last part does. */
  lemma SameEnd(p: seq<byte>, y: seq<byte>, k: nat)
    requires k <= |y|
    ensures (p + y)[|p + y| - k..] == y[|y| - k..]
  {
    assert (p + y)[|p + y| - k..] == (p + y)[|p|..][|y| - k..];
    assert (p + y)[|p|..] == y;
  }

  /** One line holding a newline in its name splits into two lines. */
  lemma Regroup(h1: seq<byte>, x: seq<byte>, h2: seq<byte>, y: seq<byte>)
    ensures h1 + [Tab] + (x + [Newline] + h2 + [Tab] + y) + [Newline] ==
            (h1 + [Tab] + x + [Newline]) + (h2 + [Tab] + y + [Newline])
  {
    var p, q := h1 + [Tab], h2 + [Tab] + y;
    var xn := x + [Newline];
    AppendAssoc(xn, h2, [Tab]);
    AppendAssoc(xn, h2 + [Tab], y);
    assert x + [Newline] + h2 + [Tab] + y == xn + q;
    AppendAssoc(p, xn, q);
    AppendAssoc(p + xn, q, [Newline]);
    AppendAssoc(p, x, [Newline]);
  }

  /** The line of a readable file `g + name` in the game folder `g`, when the
      name has no backslash and the path is not a ".gitkeep" path. */
  lemma FileLine(sha: Sha256, g: seq<byte>, name: seq<byte>, contents: seq<byte>)
    requires Backslash !in name
    requires !Strings.HasSuffix(g + name, GitKeepSuffix)
    ensures Contribution(sha, g, File(g + name, Some(contents))) == HexEncode(sha(contents)) + [Tab] + name + [Newline]
  {
    NoBackslashRel(g, name);
  }

  /** The manifest of a walk of one such file is its line. */
  lemma OneFileBody(sha: Sha256, g: seq<byte>, name: seq<byte>, contents: seq<byte>)
    requires Backslash !in name
    requires !Strings.HasSuffix(g + name, GitKeepSuffix)
    ensures Body(sha, g, [File(g + name, Some(contents))]) == HexEncode(sha(contents)) + [Tab] + name + [Newline]
  {
    BodySingle(sha, g, File(g + name, Some(contents)));
    FileLine(sha, g, name, contents);
  }

  /** The manifest of a walk of two such files is their two lines. */
  lemma TwoFileBody(sha: Sha256, g: seq<byte>, x: seq<byte>, y: seq<byte>, c1: seq<byte>, c2: seq<byte>)
    requires Backslash !in x && Backslash !in y
    requires !Strings.HasSuffix(g + x, GitKeepSuffix) && !Strings.HasSuffix(g + y, GitKeepSuffix)
    ensures Body(sha, g, [File(g + x, Some(c1)), File(g + y, Some(c2))]) ==
      (HexEncode(sha(c1)) + [Tab] + x + [Newline]) + (HexEncode(sha(c2)) + [Tab] + y + [Newline])
  {
    BodyOfTwo(sha, g, File(g + x, Some(c1)), File(g + y, Some(c2)));
    FileLine(sha, g, x, c1);
    FileLine(sha, g, y, c2);
  }

  /** The manifest of a two-entry walk is the two contributions. */
  lemma BodyOfTwo(sha: Sha256, gameFolder: seq<byte>, a: Entry, b: Entry)
    ensures Body(sha, gameFolder, [a, b]) == Contribution(sha, gameFolder, a) + Contribution(sha, gameFolder, b)
  {
    assert [a, b] == [a] + [b];
    BodyAppend(sha, gameFolder, [a], [b]);
    BodySingle(sha, gameFolder, a);
    BodySingle(sha, gameFolder, b);
  }

  /** Hex digits, a tab and a newline are not backslashes. */
  lemma NoBackslashJoin(x: seq<byte>, h: seq<byte>, y: seq<byte>)
    requires Backslash !in x && Backslash !in y
    requires forall i :: 0 <= i < |h| ==> IsLowerHexDigit(h[i])
    ensures Backslash !in x + [Newline] + h + [Tab] + y
  {
  }

  /** Inside the game folder, a name without backslashes is its own relative
      path. */
  lemma NoBackslashRel(g: seq<byte>, name: seq<byte>)
    requires Backslash !in name
    ensures Rel(g, g + name) == name
  {
    assert (g + name)[..|g|] == g;
    assert Strings.TrimPrefix(g + name, g) == name by {
      assert (g + name)[|g|..] == name;
    }
  }

  /** The digest inside a quoted tag. */
  function TagDigest(tag: seq<byte>): Option<seq<byte>> {
    if |tag| >= 2 && tag[0] == DoubleQuote && tag[|tag| - 1] == DoubleQuote then HexDecode(tag[1..|tag| - 1])
    else None
  }

  lemma HeaderRoundTrip(sha: Sha256, body: seq<byte>)
    ensures var digest: seq<byte> := sha(body); TagDigest(Header(sha, body)) == Some(digest)
  {
    var tag := Header(sha, body);
    assert tag[1..|tag| - 1] == HexEncode(sha(body));
    HexRoundTrip(sha(body));
  }

  /** Two bodies have the same tag exactly when they have the same SHA-256. */
  lemma HeaderMatch(sha: Sha256, a: seq<byte>, b: seq<byte>)
    ensures Header(sha, a) == Header(sha, b) <==> sha(a) == sha(b)
  {
    if Header(sha, a) == Header(sha, b) {
      HeaderRoundTrip(sha, a);
      HeaderRoundTrip(sha, b);
    }
  }

  /** A client that sends the tag of the manifest it holds gets 304 back only
      when its manifest has the SHA-256 of the one being served; with Force on
      it never does. */
  lemma NotModifiedMeansSameDigest(sha: Sha256, config: Config, folderData: DirData, cached: seq<byte>)
    requires folderData.checksumHeader == Header(sha, folderData.checksumsBody)
    ensures CheckHandler(config, folderData, Header(sha, cached)).status == StatusNotModified <==>
      !config.force && sha(cached) == sha(folderData.checksumsBody)
  {
    HeaderMatch(sha, cached, folderData.checksumsBody);
  }

  /** Sending back the ETag of a 200 answer revalidates: the next answer is 304
      unless Force is on. */
  lemma Revalidation(config: Config, folderData: DirData, ifNoneMatch: seq<byte>)
    requires CheckHandler(config, folderData, ifNoneMatch).status == StatusOK
    ensures var tag := CheckHandler(config, folderData, ifNoneMatch).etag.value;
      CheckHandler(config, folderData, tag).status == if config.force then StatusOK else StatusNotModified
  {
  }
}
