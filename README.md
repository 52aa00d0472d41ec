# MHF patch server: checksum manifest and ETag model

A Dafny model of the patch server in `main.go`. The model covers two parts.

- At start-up, `loadFolderData` walks the game folder. It builds the
  checksum manifest that clients download from `/check`. It has one line per
  file that is not a directory and whose path does not end in `.gitkeep`:
  `hex(sha256(contents)) TAB relative-path LF`. It feeds the same bytes to a
  running SHA-256 hasher. The quoted hex digest of that hasher becomes the
  manifest's ETag.
- For each request, `checkHandler` answers the request's `If-None-Match`
  value. It sends `304 Not Modified` when Force is off and the value is byte
  for byte the ETag. Otherwise it sends `200` with the ETag and the whole manifest.

Modules:

- `Bytes` (bytes.dfy): the byte type and the ASCII constants. Go strings and
  `[]byte` are both byte sequences, so paths, contents, lines and header values
  are all `seq<byte>`.
- `Strings` (strings.dfy): `HasPrefix`, `HasSuffix`, `TrimPrefix` and
  single-byte `ReplaceAll` from Go's `strings` package.
- `Hex` (hex.dfy): lowercase base16 encoding (section 8 of RFC 4648), as
  `hex.EncodeToString` produces it. Its inverse `HexDecode` is the reference
  the encoding is proved against.
- `PatchServer` (patchserver.dfy): the model of `main.go`.
  - `DirData` is a class holding the global `folderData`.
  - `VisitEntry` is the `filepath.WalkDir` callback, a method on one entry.
    It appends that entry's contribution to the body and to the bytes written
    to the hasher, or reports the entry as fatal.
  - `LoadFolderData` is a method with a loop over the walk that calls
    `VisitEntry` on each entry. It is proved against the specification
    functions `Body` and `Header`.
  - `Skipped`, `Fails` and `Kept` sort each entry into exactly one of three
    classes. `Contribution` is what one entry adds, and `Body` is the manifest
    of a whole walk.
  - `Rel` computes the relative path.
  - `CheckHandler` is the pure decision function.
- `ManifestFormat` (manifestformat.dfy): the reading side. A parser recovers
  each file's digest and relative path from a body. `TagDigest` recovers the
  digest from a tag. The round-trip lemmas connect them to the writing side.

SHA-256 is not modelled. Every operation that hashes takes a parameter
`sha: seq<byte> -> Digest`, where `Digest` is a 32-byte sequence. Nothing
proved depends on which function it is. Incremental hashing is modelled as
hashing the concatenation of everything written. The walk of the game folder is
an input sequence of `Entry` values, in walk order:

- a directory;
- a file, with its contents, or `None` when opening or reading it fails;
- an error reported by the walk itself.

The configuration is taken as given: the absolute `GameFolder` and `Force`.
The `If-None-Match` value is a byte string. When it is absent it is the empty
string, as `Header.Get` returns.

How the code behaves, as the model follows it:

- Skipping tests the FULL path with `HasSuffix(path, ".gitkeep")`. So a file
  such as `notes.gitkeep`, or a directory entry, contributes nothing. A skipped
  file is never opened, so an unreadable `.gitkeep` file is not an error.
- The walk-error check comes before the skip test. So an error reported at a
  directory still stops the program, and a walk error is never a skipped
  entry.
- The prefix is trimmed before backslashes are replaced. A path outside the
  folder keeps its full text, with its backslashes turned into slashes.
- `GameFolder` is made absolute without a trailing separator. So relative
  paths normally start with `/`. The model does not depend on this.
- A line ends at the first newline, and a file name may itself hold a
  newline. The manifest then cannot be read back reliably. In any game
  folder `g`, a file `g` + `x LF <64 hex digits> TAB y` gives the same body
  as two files `g` + `x` and `g` + `y`, provided the digits are the digest of
  the second file's contents.
  `NewlineInNameIsAmbiguous` proves this. `ParseBody` therefore assumes that
  no relative path holds a newline.
- The ETag comparison is plain byte equality of the whole header value. It is
  not the list and weak comparison of section 3.2 of RFC 7232.
- The body is appended to the existing global buffer, while the hasher starts
  fresh. So `checksumHeader` is the tag of `checksumsBody` only because the
  buffer is empty at start-up. `LoadFolderData` states the general case, and
  `Startup` the start-up case.

## Model

| member | source | states |
|---|---|---|
| `Strings.HasPrefixAt` | main.go:75 | `HasPrefix` holds exactly when the string is at least as long as the prefix and agrees with it byte by byte at its start |
| `Strings.HasSuffixAt` | main.go:62 | `HasSuffix` holds exactly when the string is at least as long as the suffix and agrees with it byte by byte at its end |
| `Strings.TrimPrefix` | main.go:75 | when the path starts with the game folder, folder + result == path; otherwise the result is the path unchanged |
| `Strings.ReplaceByte` | main.go:75 | same length; each byte equal to the old byte becomes the new one and every other byte is kept; the old byte no longer occurs |
| `PatchServer.SkippedCases` | main.go:59-64 | `Skipped`: a directory is skipped; a walk error never is, since it is checked first; a file is skipped exactly when its full path ends in `.gitkeep` |
| `PatchServer.FailsCases` | main.go:59-73 | `Fails`: a walk error always fails; a directory never does; a file fails exactly when it is not a `.gitkeep` path and cannot be opened or read; a skipped entry never fails |
| `PatchServer.KeptCases` | main.go:59-78 | `Kept`: an entry is kept exactly when it is neither skipped nor failing, every entry is one of the three, and a kept entry is a readable file whose path does not end in `.gitkeep` |
| `PatchServer.Rel` | main.go:75 | the relative path contains no backslash; with the folder prefix it has the length of the path minus the folder, and each byte is the corresponding byte after the prefix with `\` turned into `/`; without it, the same for the whole path |
| `Hex.HexEncode` | main.go:74 | two characters per byte, all from `0-9a-f` |
| `Hex.HexRoundTrip` | main.go:74 | decoding the lowercase hex of any byte string gives that byte string back |
| `Hex.HexEncodeInjective` | main.go:74 | different byte strings have different hex encodings |
| `PatchServer.ManifestLine` | main.go:70-76 | a line is 64 lowercase hex digits of the file's digest, a tab, the relative path and a newline, so its length is 66 plus the length of the relative path |
| `PatchServer.ContributionCases` | main.go:70-78 | `Contribution`: an entry adds bytes exactly when it is kept, and then it adds its manifest line |
| `PatchServer.BodyShape` | main.go:76-77 | `Body`: the manifest is empty exactly when no entry is kept, and otherwise its last byte is a newline |
| `PatchServer.Header` | main.go:84 | the tag is 66 bytes: a double quote, 64 lowercase hex digits, a double quote |
| `PatchServer.BodyAppend` | main.go:76-77 | the manifest of a walk split in two is the first part's manifest followed by the second's, so appending never changes earlier bytes |
| `PatchServer.BodyStep` | main.go:62-77 | one more entry keeps the body built so far as a prefix and adds that entry's contribution; directories and `.gitkeep` paths add nothing |
| `PatchServer.DirData.constructor` | main.go:20 | folderData starts at Go's zero value: empty header and empty body |
| `PatchServer.VisitEntry` | main.go:58-80 | the callback is fatal exactly on a failing entry, and then changes nothing; otherwise it appends the entry's contribution both to the body and to the bytes written to the hasher; it never touches the header |
| `PatchServer.LoadFolderData` | main.go:55-85 | when no entry fails (and the method reports none), the body is the old body followed by the lines of the kept entries in walk order, and the header is the quoted hex digest of exactly those lines; on the first walk error or unreadable file, that index is returned, no earlier entry fails, the body holds the lines before it and the header is unchanged |
| `PatchServer.Startup` | main.go:108-113 | after loading into the zero-valued folderData: when nothing is reported, no entry fails, the body is the manifest of the walk and the header is the tag of that body; otherwise the reported index is the first failing entry |
| `PatchServer.CheckHandler` | main.go:97-106 | 304 exactly when Force is off and If-None-Match equals the header, with no ETag and no body; otherwise 200 with ETag = the header and body = the whole manifest (always so when Force is on); it only reads folderData and the configuration |
| `ManifestFormat.RecordsCount` | main.go:62-78 | when no relative path holds a newline, the body parses, and into exactly as many records as there are kept entries: directories, `.gitkeep` paths and failing entries add no line |
| `ManifestFormat.ParseLine` | main.go:76 | parsing a manifest line followed by more text yields that file's digest and relative path, then whatever the rest yields |
| `ManifestFormat.ParseBody` | main.go:58-80 | when no relative path contains a newline, parsing the body gives back, in walk order, the digest and relative path of every kept file and nothing for skipped entries |
| `ManifestFormat.NewlineInNameIsAmbiguous` | main.go:75-76 | without that premise reading back fails: in any game folder, a one-file walk whose name holds a newline and a well-formed second line gives the same body as a different two-file walk |
| `ManifestFormat.HeaderRoundTrip` | main.go:84 | the digest read back from a tag is the SHA-256 of the body it was made from |
| `ManifestFormat.HeaderMatch` | main.go:84 | two bodies have the same tag exactly when they have the same SHA-256 |
| `ManifestFormat.NotModifiedMeansSameDigest` | main.go:97-101 | when folderData is in its loaded state, a client sending the tag of its cached manifest gets 304 exactly when Force is off and that manifest has the served one's SHA-256 |
| `ManifestFormat.Revalidation` | main.go:98-105 | sending back the ETag of a 200 answer gets 304, unless Force is on |

## Left out

- deploy.py, the release packaging script, is not part of this model. It does directory cleaning, file copying, permission changes, ZIP writing and coloured logging, and has no logic to state beyond existence checks.
- `concurrencyLimiter` (main.go:88-95) is not modelled. It is a channel semaphore around the handler, and its only effect is on concurrency.
- The HTTP servers, muxes and static file servers (main.go:115-136) are not modelled. They are library networking code.
- `loadConfig` (main.go:37-53) is not modelled. It is JSON decoding and `filepath.Abs`. `GameFolder` and `Force` are inputs.
- Opening and reading files, and the traversal order of `filepath.WalkDir`, are not modelled. The walk is an input sequence, the contents are inputs, and a failure to open or read becomes a `None` content.
- SHA-256 is a parameter, not an implementation. Incremental `Write` calls followed by `Sum` are modelled as hashing the concatenation written.
- `log.Fatal` is modelled as `LoadFolderData` returning the index of the first failing entry. The exit of the process and the log message are not modelled.
- `Strings.ReplaceByte`: models `strings.ReplaceAll` only for one-byte old and new strings, the only case main.go uses.
- `PatchServer.CheckHandler`: the request and response are values. Header canonicalisation and `Header.Get` returning only the first value are not modelled, and neither is how the Go server writes the response.
- `PatchServer.LoadFolderData`: on a failing entry the real process exits, so the state it states there is the state at the moment of exit.
