/** The command parser of parser.h: the whitespace tokenizer, the dispatcher
    `parserProcessCommands` with its argument accumulation and abort rule, and
    the commands it runs against a file store.  The client stream is a byte
    sequence and a read index; whatever the commands print is recorded as a
    trace of events. */
module Parser {
  import opened Ascii
  import opened Filesys
  import opened Commands

  const MAX_NETWORK_TEXT: nat := 256
  /** `g_network_buf` as declared: MAX_NETWORK_TEXT + 1 + 1 bytes. */
  const NETWORK_BUF_SIZE: nat := MAX_NETWORK_TEXT + 2
  /** The line buffer the dispatcher actually needs (see `LineWritesFit`). */
  const LINE_BUF_SIZE: nat := MAX_NETWORK_TEXT + 3
  /** The chunk size of `_parserSaveStream2File`. */
  const SAVE_CHUNK: nat := 256
  /** The `size` `_parserReadFile2Stream` passes to `streamReadLine`. */
  const CAT_LINE_SIZE: nat := 256
  /** The field width of both `%10s` conversions of the INFO command. */
  const INFO_WIDTH: nat := 10

  /** `MAX_FILENAME_LEN`, which the sources leave to the build. */
  type NameLimit = n: nat | n >= 1 witness 1

  /** The SPIFFS file system as the commands see it: files keyed by their
      fixed-up names, whether opening for writing succeeds, and the name limit. */
  datatype FileStore = FileStore(files: map<seq<byte>, seq<byte>>, writable: bool, nameLimit: NameLimit)

  /** The name `_filesys_fix_name` turns a command argument into. */
  function Key(fs: FileStore, name: seq<byte>): (r: seq<byte>)
    ensures FixName(r, fs.nameLimit) == r
  {
    FixNameIdempotent(name, fs.nameLimit);
    FixName(name, fs.nameLimit)
  }

  /** What the dispatcher and its commands print to the client. */
  datatype Event =
    | Unrecognized(token: seq<byte>)          // "Error, unrecognized command: [..]"
    | Flushed                                 // client->flush()
    | HelpText                                // _parserHelp(client)
    | InfoParams(first: seq<byte>, second: seq<byte>)
    | InfoUsage(text: seq<byte>, found: int)  // the three-line INFO error
    | DirListing                              // "Contents:" and the listing
    | NoSuchFile(name: seq<byte>)
    | FileDeleted(name: seq<byte>)
    | CatHeader(name: seq<byte>)              // "read file to stream [..]"
    | CatOpenFailed(name: seq<byte>)
    | CatLine(text: seq<byte>)                // one line printed with "%s\n"
    | UploadOpenFailed(name: seq<byte>)       // "Error: unable to write to file .."

  // ---------------------------------------------------------------------------
  // The tokenizer

  predicate IsDelimiter(c: byte)
  {
    c == SPACE || c == LF
  }

  /** A byte the tokenizer stores: anything but a delimiter, CR or NUL. */
  predicate IsTokenByte(c: byte)
  {
    !IsDelimiter(c) && c != CR && c != NUL
  }

  /** The bytes of `s` that the tokenizer would store, in order. */
  function TokenBytes(s: seq<byte>): (r: seq<byte>)
    ensures |r| <= |s|
  {
    if s == [] then [] else (if IsTokenByte(s[0]) then [s[0]] else []) + TokenBytes(s[1..])
  }

  lemma {:induction false} TokenBytesAppend(a: seq<byte>, b: seq<byte>)
    ensures TokenBytes(a + b) == TokenBytes(a) + TokenBytes(b)
  {
    if a != [] {
      assert (a + b)[1..] == a[1..] + b;
      TokenBytesAppend(a[1..], b);
    } else {
      assert a + b == b;
    }
  }

  lemma TokenBytesOne(c: byte)
    ensures TokenBytes([c]) == if IsTokenByte(c) then [c] else []
  {
    assert [c][1..] == [];
  }

  /** The inner `while (client->available())` loop of `parserProcessCommands`
      from read index `pos` with `line` already in the line buffer: returns
      where it stopped and the line buffer contents. */
  function ScanToken(input: seq<byte>, pos: nat, line: seq<byte>): (r: (nat, seq<byte>))
    requires pos <= |input|
    ensures pos <= r.0 <= |input|
    ensures pos < |input| ==> pos < r.0
    ensures |line| <= |r.1| && r.1[..|line|] == line
    ensures |r.1| <= if |line| < MAX_NETWORK_TEXT then MAX_NETWORK_TEXT else |line| + 1
    decreases |input| - pos
  {
    if pos == |input| then (pos, line)
    else
      var c := input[pos];
      if c == NUL then (pos + 1, line)
      else if c == CR then ScanToken(input, pos + 1, line)
      else if IsDelimiter(c) then
        (if |line| == 0 then ScanToken(input, pos + 1, line) else (pos + 1, line))
      else if |line| + 1 >= MAX_NETWORK_TEXT then (pos + 1, line + [c])
      else ScanToken(input, pos + 1, line + [c])
  }

  /** What the tokenizer stores is exactly the token bytes it consumed, after
      what was in the buffer. */
  lemma {:induction false} ScanTokenContent(input: seq<byte>, pos: nat, line: seq<byte>)
    requires pos <= |input|
    ensures ScanToken(input, pos, line).1 == line + TokenBytes(input[pos..ScanToken(input, pos, line).0])
    decreases |input| - pos
  {
    if pos < |input| {
      var c := input[pos];
      var p := ScanToken(input, pos, line).0;
      assert input[pos..p] == [c] + input[pos + 1..p];
      TokenBytesAppend([c], input[pos + 1..p]);
      TokenBytesOne(c);
      if c == NUL || (IsDelimiter(c) && |line| > 0) || (IsTokenByte(c) && |line| + 1 >= MAX_NETWORK_TEXT) {
        assert input[pos + 1..p] == [];
      } else if c == CR || IsDelimiter(c) {
        ScanTokenContent(input, pos + 1, line);
      } else {
        ScanTokenContent(input, pos + 1, line + [c]);
      }
    }
  }

  /** The tokenizer stops before the end of the input only at a NUL, at a
      delimiter after a stored byte, or once it has stored a byte that brings
      the buffer to MAX_NETWORK_TEXT. */
  lemma {:induction false} ScanTokenStop(input: seq<byte>, pos: nat, line: seq<byte>)
    requires pos <= |input|
    ensures var r := ScanToken(input, pos, line);
      r.0 < |input| ==>
        input[r.0 - 1] == NUL ||
        (|r.1| > 0 && IsDelimiter(input[r.0 - 1])) ||
        (|r.1| > |line| && |r.1| >= MAX_NETWORK_TEXT)
    decreases |input| - pos
  {
    if pos < |input| {
      var c := input[pos];
      if c == CR || (IsDelimiter(c) && |line| == 0) {
        ScanTokenStop(input, pos + 1, line);
      } else if IsTokenByte(c) && |line| + 1 < MAX_NETWORK_TEXT {
        ScanTokenStop(input, pos + 1, line + [c]);
      }
    }
  }

  /** The tokenizer goes on past every byte before the last one it consumes:
      none of them is a NUL, none is a delimiter met with bytes in the buffer,
      and none is a stored byte that brings the buffer to MAX_NETWORK_TEXT. */
  lemma {:induction false} ScanTokenFirstStop(input: seq<byte>, pos: nat, line: seq<byte>)
    requires pos <= |input|
    ensures var r := ScanToken(input, pos, line);
      forall j :: pos <= j < r.0 - 1 ==>
        input[j] != NUL &&
        !(IsDelimiter(input[j]) && |line| + |TokenBytes(input[pos..j])| > 0) &&
        (IsTokenByte(input[j]) ==> |line| + |TokenBytes(input[pos..j + 1])| < MAX_NETWORK_TEXT)
    decreases |input| - pos
  {
    if pos < |input| {
      var c := input[pos];
      var r := ScanToken(input, pos, line);
      if c == CR || (IsDelimiter(c) && |line| == 0) || (IsTokenByte(c) && |line| + 1 < MAX_NETWORK_TEXT) {
        var line' := if IsTokenByte(c) then line + [c] else line;
        assert r == ScanToken(input, pos + 1, line');
        ScanTokenFirstStop(input, pos + 1, line');
        TokenBytesOne(c);
        forall j | pos <= j < r.0 - 1
          ensures input[j] != NUL
          ensures !(IsDelimiter(input[j]) && |line| + |TokenBytes(input[pos..j])| > 0)
          ensures IsTokenByte(input[j]) ==> |line| + |TokenBytes(input[pos..j + 1])| < MAX_NETWORK_TEXT
        {
          TokenBytesHead(input, pos, j + 1);
          if j == pos {
            assert input[pos..j] == [] && input[pos + 1..j + 1] == [];
          } else {
            assert input[j] != NUL;
            TokenBytesHead(input, pos, j);
          }
        }
      }
    }
  }

  /** A run of `k` token bytes is stored one by one while the buffer stays
      below MAX_NETWORK_TEXT. */
  lemma {:induction false} ScanTokenTakes(input: seq<byte>, pos: nat, line: seq<byte>, k: nat)
    requires pos + k <= |input|
    requires forall j :: pos <= j < pos + k ==> IsTokenByte(input[j])
    requires |line| + k < MAX_NETWORK_TEXT
    ensures ScanToken(input, pos, line) == ScanToken(input, pos + k, line + input[pos..pos + k])
    decreases k
  {
    if k == 0 {
      assert line + input[pos..pos] == line;
    } else {
      ScanTokenTakes(input, pos + 1, line + [input[pos]], k - 1);
      assert line + [input[pos]] + input[pos + 1..pos + k] == line + input[pos..pos + k];
    }
  }

  /** A word of token bytes followed by a delimiter is the next token. */
  lemma WordAt(input: seq<byte>, pos: nat, w: seq<byte>)
    requires pos + |w| < |input| && input[pos..pos + |w|] == w && IsDelimiter(input[pos + |w|])
    requires 0 < |w| < MAX_NETWORK_TEXT && forall i :: 0 <= i < |w| ==> IsTokenByte(w[i])
    ensures ScanToken(input, pos, []) == (pos + |w| + 1, w)
  {
    forall j | pos <= j < pos + |w|
      ensures IsTokenByte(input[j])
    {
      assert input[j] == w[j - pos];
    }
    ScanTokenTakes(input, pos, [], |w|);
    assert [] + input[pos..pos + |w|] == w;
  }

  // ---------------------------------------------------------------------------
  // INFO: sscanf(linebuffer, "%10s %10s", arg1, arg2)

  function SkipSpace(s: seq<byte>): (r: seq<byte>)
    ensures |r| <= |s| && r == s[|s| - |r|..]
    ensures r == [] || !IsSpace(r[0])
    ensures forall i :: 0 <= i < |s| - |r| ==> IsSpace(s[i])
  {
    if s != [] && IsSpace(s[0]) then
      var r := SkipSpace(s[1..]);
      assert forall i :: 1 <= i < |s| ==> s[i] == s[1..][i - 1];
      r
    else s
  }

  /** The length of the word `%Ns` converts at the start of `s` (which does
      not start with a space): at most `width` non-space bytes. */
  function WordLength(s: seq<byte>, width: nat): (n: nat)
    ensures n <= |s| && n <= width
    ensures forall i :: 0 <= i < n ==> !IsSpace(s[i])
    ensures n < |s| && n < width ==> IsSpace(s[n])
  {
    if s == [] || width == 0 || IsSpace(s[0]) then 0 else 1 + WordLength(s[1..], width - 1)
  }

  /** The result of the INFO command's `sscanf`: its return value (-1 for
      EOF) and the words it converted. */
  datatype Scanned = Scanned(count: int, first: seq<byte>, second: seq<byte>)

  function ScanInfo(s: seq<byte>): (r: Scanned)
    ensures r.count in {-1, 1, 2} && (r.count < 2 ==> r.second == [])
  {
    var s1 := SkipSpace(s);
    if s1 == [] then Scanned(-1, [], [])
    else
      var k1 := WordLength(s1, INFO_WIDTH);
      var s2 := SkipSpace(s1[k1..]);
      if s2 == [] then Scanned(1, s1[..k1], [])
      else Scanned(2, s1[..k1], s2[..WordLength(s2, INFO_WIDTH)])
  }

  /** `sscanf` returns EOF exactly when the text holds only white space, and
      every word it converts is 1 to 10 non-space bytes. */
  lemma ScanInfoSpec(s: seq<byte>)
    ensures ScanInfo(s).count in {-1, 1, 2}
    ensures ScanInfo(s).count == -1 <==> forall i :: 0 <= i < |s| ==> IsSpace(s[i])
    ensures ScanInfo(s).count >= 1 ==>
      1 <= |ScanInfo(s).first| <= INFO_WIDTH && forall i :: 0 <= i < |ScanInfo(s).first| ==> !IsSpace(ScanInfo(s).first[i])
    ensures ScanInfo(s).count == 2 ==>
      1 <= |ScanInfo(s).second| <= INFO_WIDTH && forall i :: 0 <= i < |ScanInfo(s).second| ==> !IsSpace(ScanInfo(s).second[i])
  {
    var s1 := SkipSpace(s);
    if s1 != [] {
      assert s[|s| - |s1|] == s1[0];
      var k1 := WordLength(s1, INFO_WIDTH);
      WordStart(s1, INFO_WIDTH);
      var s2 := SkipSpace(s1[k1..]);
      if s2 != [] {
        WordStart(s2, INFO_WIDTH);
      }
    }
  }

  /** A conversion that starts at a non-space byte converts at least it. */
  lemma WordStart(s: seq<byte>, width: nat)
    requires s != [] && !IsSpace(s[0]) && width >= 1
    ensures 1 <= WordLength(s, width) <= width
    ensures forall i :: 0 <= i < |s[..WordLength(s, width)]| ==> !IsSpace(s[..WordLength(s, width)][i])
  {
  }

  /** The strict format `<word> <word>` with words of at most ten bytes is
      converted word for word. */
  lemma ScanInfoAccepts(a: seq<byte>, b: seq<byte>)
    requires 1 <= |a| <= INFO_WIDTH && 1 <= |b| <= INFO_WIDTH
    requires forall i :: 0 <= i < |a| ==> !IsSpace(a[i])
    requires forall i :: 0 <= i < |b| ==> !IsSpace(b[i])
    ensures ScanInfo(a + [SPACE] + b) == Scanned(2, a, b)
  {
    var s := a + [SPACE] + b;
    assert s[0] == a[0];
    WordLengthExact(s, INFO_WIDTH, |a|);
    assert s[|a|..] == [SPACE] + b;
    assert ([SPACE] + b)[1..] == b;
    WordLengthExact(b, INFO_WIDTH, |b|);
    assert s[..|a|] == a && b[..|b|] == b;
  }

  /** A single word is a single conversion. */
  lemma ScanInfoOneWord(a: seq<byte>)
    requires 1 <= |a| <= INFO_WIDTH
    requires forall i :: 0 <= i < |a| ==> !IsSpace(a[i])
    ensures ScanInfo(a) == Scanned(1, a, [])
  {
    WordLengthExact(a, INFO_WIDTH, |a|);
    assert a[|a|..] == [] && a[..|a|] == a;
  }

  /** `%Ns` converts exactly a word of at most `width` bytes that ends at a
      space or at the end of the text. */
  lemma {:induction false} WordLengthExact(s: seq<byte>, width: nat, n: nat)
    requires n <= width && n <= |s|
    requires forall i :: 0 <= i < n ==> !IsSpace(s[i])
    requires n < |s| ==> IsSpace(s[n])
    ensures WordLength(s, width) == n
  {
    if n > 0 {
      WordLengthExact(s[1..], width - 1, n - 1);
    }
  }

  /** What the INFO command prints for its argument text. */
  function InfoEvents(text: seq<byte>): (r: seq<Event>)
    ensures |r| == 1
    ensures r[0].InfoParams? <==> ScanInfo(text).count == 2
  {
    var sc := ScanInfo(text);
    if sc.count == 2 then [InfoParams(sc.first, sc.second)] else [InfoUsage(text, sc.count)]
  }

  // ---------------------------------------------------------------------------
  // UPLOAD: _parserSaveStream2File

  /** The inner loop of `_parserSaveStream2File`, from `chunk` already stored. */
  function ScanChunk(input: seq<byte>, pos: nat, chunk: seq<byte>): (r: (nat, seq<byte>))
    requires pos <= |input| && |chunk| < SAVE_CHUNK
    ensures pos <= r.0 <= |input|
    ensures |chunk| <= |r.1| <= SAVE_CHUNK && r.1[..|chunk|] == chunk
    ensures |r.1| - |chunk| <= r.0 - pos
    decreases |input| - pos
  {
    if pos == |input| then (pos, chunk)
    else
      var c := input[pos];
      if c == CR then ScanChunk(input, pos + 1, chunk)
      else if IsDelimiter(c) && |chunk| == 0 then ScanChunk(input, pos + 1, chunk)
      else if c == NUL then (pos + 1, chunk)
      else if |chunk| + 1 == SAVE_CHUNK then (pos + 1, chunk + [c])
      else ScanChunk(input, pos + 1, chunk + [c])
  }

  /** The outer do-while: the chunks appended to the file, and where the
      stream was left. */
  function Chunks(input: seq<byte>, pos: nat): (r: (seq<seq<byte>>, nat))
    requires pos <= |input|
    ensures pos <= r.1 <= |input|
    decreases |input| - pos
  {
    var cr := ScanChunk(input, pos, []); var p, chunk := cr.0, cr.1;
    if |chunk| == 0 then ([], p)
    else
      var rr := Chunks(input, p); var rest, q := rr.0, rr.1;
      ([chunk] + rest, q)
  }

  /** A chunk shape: 1 to 256 bytes, never a CR or NUL, not starting with a
      delimiter. */
  predicate IsChunk(chunk: seq<byte>)
  {
    0 < |chunk| <= SAVE_CHUNK && CR !in chunk && NUL !in chunk && !IsDelimiter(chunk[0])
  }

  /** A chunk never holds a CR or NUL and never starts with a delimiter. */
  lemma {:induction false} ScanChunkShape(input: seq<byte>, pos: nat, chunk: seq<byte>)
    requires pos <= |input| && |chunk| < SAVE_CHUNK
    requires CR !in chunk && NUL !in chunk && (chunk == [] || !IsDelimiter(chunk[0]))
    ensures var r := ScanChunk(input, pos, chunk);
      CR !in r.1 && NUL !in r.1 && (r.1 == [] || !IsDelimiter(r.1[0]))
    decreases |input| - pos
  {
    if pos < |input| {
      var c := input[pos];
      if c == CR || (IsDelimiter(c) && |chunk| == 0) {
        ScanChunkShape(input, pos + 1, chunk);
      } else if c != NUL && |chunk| + 1 < SAVE_CHUNK {
        ScanChunkShape(input, pos + 1, chunk + [c]);
      }
    }
  }

  /** The bytes of a consumed stream that reach the file, taken one at a
      time: CR and NUL are dropped, and so are spaces and newlines while the
      current chunk is empty.  `n` counts the bytes of the current chunk,
      which starts over after a NUL and after SAVE_CHUNK bytes. */
  function Uploaded(s: seq<byte>, n: nat): seq<byte>
    decreases |s|
  {
    if s == [] then []
    else
      var c := s[0];
      if c == CR || (IsDelimiter(c) && n == 0) then Uploaded(s[1..], n)
      else if c == NUL then Uploaded(s[1..], 0)
      else [c] + Uploaded(s[1..], if n + 1 >= SAVE_CHUNK then 0 else n + 1)
  }

  /** `Uploaded` on a slice, unfolded at its first byte. */
  lemma UploadedHead(input: seq<byte>, pos: nat, q: nat, n: nat)
    requires pos < q <= |input|
    ensures var c := input[pos]; var rest := input[pos + 1..q];
      Uploaded(input[pos..q], n) ==
        if c == CR || (IsDelimiter(c) && n == 0) then Uploaded(rest, n)
        else if c == NUL then Uploaded(rest, 0)
        else [c] + Uploaded(rest, if n + 1 >= SAVE_CHUNK then 0 else n + 1)
  {
    assert input[pos..q][0] == input[pos] && input[pos..q][1..] == input[pos + 1..q];
  }

  /** `t` is `s` with some spaces, newlines, CRs and NULs deleted. */
  predicate Thins(s: seq<byte>, t: seq<byte>)
    decreases |s|
  {
    if s == [] then t == []
    else (t != [] && t[0] == s[0] && Thins(s[1..], t[1..])) || (!IsTokenByte(s[0]) && Thins(s[1..], t))
  }

  /** An upload deletes nothing but white space, CR and NUL: every other
      byte reaches the file, in order. */
  lemma {:induction false} UploadedThins(s: seq<byte>, n: nat)
    ensures Thins(s, Uploaded(s, n))
    decreases |s|
  {
    if s != [] {
      var c := s[0];
      if c == CR || (IsDelimiter(c) && n == 0) {
        UploadedThins(s[1..], n);
      } else if c == NUL {
        UploadedThins(s[1..], 0);
      } else {
        var n' := if n + 1 >= SAVE_CHUNK then 0 else n + 1;
        UploadedThins(s[1..], n');
        assert ([c] + Uploaded(s[1..], n'))[1..] == Uploaded(s[1..], n');
      }
    }
  }

  /** Token bytes that fit in the current chunk all reach the file. */
  lemma {:induction false} UploadedTokens(w: seq<byte>, rest: seq<byte>, n: nat)
    requires n < SAVE_CHUNK && n + |w| <= SAVE_CHUNK
    requires forall i :: 0 <= i < |w| ==> IsTokenByte(w[i])
    ensures Uploaded(w + rest, n) == w + Uploaded(rest, if n + |w| == SAVE_CHUNK then 0 else n + |w|)
    decreases |w|
  {
    if w == [] {
      assert w + rest == rest;
    } else {
      var c := w[0];
      assert (w + rest)[0] == c && (w + rest)[1..] == w[1..] + rest;
      if n + 1 == SAVE_CHUNK {
        assert w == [c] && w[1..] + rest == rest;
      } else {
        UploadedTokens(w[1..], rest, n + 1);
        assert w + Uploaded(rest, if n + |w| == SAVE_CHUNK then 0 else n + |w|)
          == [c] + (w[1..] + Uploaded(rest, if n + |w| == SAVE_CHUNK then 0 else n + |w|));
      }
    }
  }

  /** A space right after a full 256-byte chunk starts the next chunk and is
      lost. */
  lemma UploadSpaceAfterFullChunk(w: seq<byte>, rest: seq<byte>)
    requires |w| == SAVE_CHUNK && forall i :: 0 <= i < |w| ==> IsTokenByte(w[i])
    ensures Uploaded(w + [SPACE] + rest, 0) == w + Uploaded(rest, 0)
  {
    UploadedTokens(w, [SPACE] + rest, 0);
    assert w + [SPACE] + rest == w + ([SPACE] + rest);
    assert ([SPACE] + rest)[0] == SPACE && ([SPACE] + rest)[1..] == rest;
  }

  /** A space inside a chunk is kept. */
  lemma UploadSpaceInsideChunk(w: seq<byte>, rest: seq<byte>)
    requires 0 < |w| && |w| + 1 < SAVE_CHUNK && forall i :: 0 <= i < |w| ==> IsTokenByte(w[i])
    ensures Uploaded(w + [SPACE] + rest, 0) == w + [SPACE] + Uploaded(rest, |w| + 1)
  {
    UploadedTokens(w, [SPACE] + rest, 0);
    assert w + [SPACE] + rest == w + ([SPACE] + rest);
    assert ([SPACE] + rest)[0] == SPACE && ([SPACE] + rest)[1..] == rest;
    assert w + ([SPACE] + Uploaded(rest, |w| + 1)) == w + [SPACE] + Uploaded(rest, |w| + 1);
  }

  /** A byte the chunk scan skips or stores and goes on from; `chunk'` is
      the chunk it goes on with. */
  lemma ScanChunkNext(input: seq<byte>, pos: nat, chunk: seq<byte>, chunk': seq<byte>)
    requires pos < |input| && |chunk| < SAVE_CHUNK
    requires var c := input[pos];
      if c == CR || (IsDelimiter(c) && |chunk| == 0) then chunk' == chunk
      else c != NUL && |chunk| + 1 < SAVE_CHUNK && chunk' == chunk + [c]
    ensures ScanChunk(input, pos, chunk) == ScanChunk(input, pos + 1, chunk')
  {
  }

  /** A chunk holds exactly the bytes `Uploaded` keeps of what its scan
      consumed, and a fresh chunk starts where the scan stopped. */
  lemma {:induction false} ScanChunkUploaded(input: seq<byte>, pos: nat, chunk: seq<byte>, q: nat)
    requires pos <= |input| && |chunk| < SAVE_CHUNK
    requires ScanChunk(input, pos, chunk).0 <= q <= |input|
    ensures var r := ScanChunk(input, pos, chunk);
      Uploaded(input[pos..q], |chunk|) == r.1[|chunk|..] + Uploaded(input[r.0..q], 0)
    decreases |input| - pos
  {
    var n := |chunk|;
    if pos == |input| {
      assert ScanChunk(input, pos, chunk) == (pos, chunk);
      assert chunk[n..] == [] && input[pos..q] == [];
    } else {
      var c := input[pos];
      var skip := c == CR || (IsDelimiter(c) && n == 0);
      if skip || (c != NUL && n + 1 < SAVE_CHUNK) {
        var chunk' := if skip then chunk else chunk + [c];
        var r := ScanChunk(input, pos + 1, chunk');
        ScanChunkNext(input, pos, chunk, chunk');
        ScanChunkUploaded(input, pos + 1, chunk', q);
        if skip {
          ChunkSkipStep(input, pos, q, n, r.1[n..] + Uploaded(input[r.0..q], 0));
        } else {
          assert r.1[n] == c;
          ChunkStoreStep(input, pos, q, r.1, n, Uploaded(input[r.0..q], 0));
        }
      } else {
        var out := if c == NUL then chunk else chunk + [c];
        assert ScanChunk(input, pos, chunk) == (pos + 1, out);
        ChunkStopStep(input, pos, q, chunk, out);
      }
    }
  }

  /** A CR, or a delimiter met while the chunk is empty, is skipped. */
  lemma ChunkSkipStep(input: seq<byte>, pos: nat, q: nat, n: nat, tail: seq<byte>)
    requires pos < q <= |input|
    requires input[pos] == CR || (IsDelimiter(input[pos]) && n == 0)
    requires Uploaded(input[pos + 1..q], n) == tail
    ensures Uploaded(input[pos..q], n) == tail
  {
    UploadedHead(input, pos, q, n);
  }

  /** Any other byte, when the chunk has room after it, is stored. */
  lemma ChunkStoreStep(input: seq<byte>, pos: nat, q: nat, out: seq<byte>, n: nat, tail: seq<byte>)
    requires pos < q <= |input| && n + 1 < SAVE_CHUNK && n < |out|
    requires var c := input[pos]; c != CR && c != NUL && !(IsDelimiter(c) && n == 0) && out[n] == c
    requires Uploaded(input[pos + 1..q], n + 1) == out[n + 1..] + tail
    ensures Uploaded(input[pos..q], n) == out[n..] + tail
  {
    var s := input[pos..q];
    assert s[0] == input[pos] && s[1..] == input[pos + 1..q];
    assert Uploaded(s, n) == [s[0]] + Uploaded(s[1..], n + 1);
    assert out[n..] == [out[n]] + out[n + 1..];
  }

  /** The byte the scan stops at: a NUL it drops, or the byte that fills the
      chunk. */
  lemma ChunkStopStep(input: seq<byte>, pos: nat, q: nat, chunk: seq<byte>, out: seq<byte>)
    requires pos < q <= |input| && |chunk| < SAVE_CHUNK
    requires var c := input[pos];
      c != CR && !(IsDelimiter(c) && |chunk| == 0) &&
      (if c == NUL then out == chunk else |chunk| + 1 == SAVE_CHUNK && out == chunk + [c])
    ensures Uploaded(input[pos..q], |chunk|) == out[|chunk|..] + Uploaded(input[pos + 1..q], 0)
  {
    UploadedHead(input, pos, q, |chunk|);
    assert out[|chunk|..] == if input[pos] == NUL then [] else [input[pos]];
  }

  /** The scan goes on past every byte before the last one it consumes: none
      of them is a NUL, and none of them fills the chunk. */
  lemma {:induction false} ScanChunkFirstStop(input: seq<byte>, pos: nat, chunk: seq<byte>)
    requires pos <= |input| && |chunk| < SAVE_CHUNK
    ensures var r := ScanChunk(input, pos, chunk);
      forall j :: pos <= j < r.0 - 1 ==>
        input[j] != NUL && |chunk| + |Uploaded(input[pos..j + 1], |chunk|)| < SAVE_CHUNK
    decreases |input| - pos
  {
    if pos < |input| {
      var c := input[pos];
      var n := |chunk|;
      var skip := c == CR || (IsDelimiter(c) && n == 0);
      if skip || (c != NUL && n + 1 < SAVE_CHUNK) {
        var chunk' := if skip then chunk else chunk + [c];
        var r := ScanChunk(input, pos + 1, chunk');
        assert ScanChunk(input, pos, chunk) == r;
        ScanChunkFirstStop(input, pos + 1, chunk');
        forall j | pos <= j < r.0 - 1
          ensures input[j] != NUL && n + |Uploaded(input[pos..j + 1], n)| < SAVE_CHUNK
        {
          assert pos < j ==> input[j] != NUL;
          ChunkCountStep(input, pos, j, chunk, chunk');
        }
      }
    }
  }

  /** The chunk stays below SAVE_CHUNK bytes across a byte the scan goes on
      from. */
  lemma ChunkCountStep(input: seq<byte>, pos: nat, j: nat, chunk: seq<byte>, chunk': seq<byte>)
    requires pos <= j < |input| && |chunk| < SAVE_CHUNK
    requires var c := input[pos];
      if c == CR || (IsDelimiter(c) && |chunk| == 0) then chunk' == chunk
      else c != NUL && |chunk| + 1 < SAVE_CHUNK && chunk' == chunk + [c]
    requires pos < j ==> |chunk'| + |Uploaded(input[pos + 1..j + 1], |chunk'|)| < SAVE_CHUNK
    ensures |chunk| + |Uploaded(input[pos..j + 1], |chunk|)| < SAVE_CHUNK
  {
    UploadedHead(input, pos, j + 1, |chunk|);
    if j == pos {
      assert input[pos + 1..j + 1] == [];
    }
  }

  /** The token bytes of a slice are those of its first byte, then the
      rest's. */
  lemma TokenBytesHead(input: seq<byte>, pos: nat, p: nat)
    requires pos < p <= |input|
    ensures TokenBytes(input[pos..p]) == TokenBytes([input[pos]]) + TokenBytes(input[pos + 1..p])
  {
    SliceHead(input, pos, p);
    TokenBytesAppend([input[pos]], input[pos + 1..p]);
  }


  /** A chunk scan stops before the end of the stream only after a NUL or
      with a full chunk. */
  lemma {:induction false} ScanChunkStop(input: seq<byte>, pos: nat, chunk: seq<byte>)
    requires pos <= |input| && |chunk| < SAVE_CHUNK
    ensures var r := ScanChunk(input, pos, chunk);
      r.0 < |input| ==> pos < r.0 && (input[r.0 - 1] == NUL || |r.1| == SAVE_CHUNK)
    decreases |input| - pos
  {
    if pos < |input| {
      var c := input[pos];
      if c == CR || (IsDelimiter(c) && |chunk| == 0) {
        ScanChunkStop(input, pos + 1, chunk);
      } else if c != NUL && |chunk| + 1 < SAVE_CHUNK {
        ScanChunkStop(input, pos + 1, chunk + [c]);
      }
    }
  }

  /** Every chunk `_parserSaveStream2File` writes is 1 to 256 bytes, holds no
      CR or NUL and does not start with white space. */
  lemma {:induction false} ChunksShape(input: seq<byte>, pos: nat)
    requires pos <= |input|
    ensures var chunks := Chunks(input, pos).0;
      forall i :: 0 <= i < |chunks| ==> IsChunk(chunks[i])
    decreases |input| - pos
  {
    var cr := ScanChunk(input, pos, []);
    ScanChunkShape(input, pos, []);
    if |cr.1| > 0 {
      ChunksShape(input, cr.0);
      assert Chunks(input, pos).0 == [cr.1] + Chunks(input, cr.0).0;
    }
  }

  /** Everything an upload writes is the stream it consumed, as `Uploaded`
      filters it. */
  lemma {:induction false} ChunksUploaded(input: seq<byte>, pos: nat)
    requires pos <= |input|
    ensures var r := Chunks(input, pos);
      Concat(r.0) == Uploaded(input[pos..r.1], 0)
    decreases |input| - pos
  {
    var cr := ScanChunk(input, pos, []);
    if |cr.1| > 0 {
      var rr := Chunks(input, cr.0);
      ChunksUploaded(input, cr.0);
      ScanChunkUploaded(input, pos, [], rr.1);
      assert Chunks(input, pos) == ([cr.1] + rr.0, rr.1);
      ConcatHead(cr.1, rr.0);
    } else {
      ScanChunkUploaded(input, pos, [], cr.0);
      assert input[cr.0..cr.0] == [];
    }
  }

  lemma ConcatHead(chunk: seq<byte>, rest: seq<seq<byte>>)
    ensures Concat([chunk] + rest) == chunk + Concat(rest)
  {
    assert ([chunk] + rest)[1..] == rest;
  }

  /** `_parserSaveStream2File` reads until the stream ends or until a NUL
      ends a chunk with nothing in it. */
  lemma {:induction false} ChunksStop(input: seq<byte>, pos: nat)
    requires pos <= |input|
    ensures var p := Chunks(input, pos).1;
      p == |input| || (pos < p && input[p - 1] == NUL)
    decreases |input| - pos
  {
    var cr := ScanChunk(input, pos, []);
    ScanChunkStop(input, pos, []);
    if |cr.1| > 0 {
      ChunksStop(input, cr.0);
    }
  }

  /** A stream without NUL bytes is consumed to its end. */
  lemma ChunksConsumeAll(input: seq<byte>, pos: nat)
    requires pos <= |input| && forall j :: pos <= j < |input| ==> input[j] != NUL
    ensures Chunks(input, pos).1 == |input|
  {
    ChunksStop(input, pos);
  }

  /** The rest of a short input without CR or NUL goes into the chunk
      whole. */
  lemma {:induction false} ScanChunkRest(input: seq<byte>, pos: nat, chunk: seq<byte>)
    requires pos < |input| && |chunk| + (|input| - pos) <= SAVE_CHUNK
    requires forall j :: pos <= j < |input| ==> input[j] != CR && input[j] != NUL
    requires chunk == [] ==> !IsDelimiter(input[pos])
    ensures ScanChunk(input, pos, chunk) == (|input|, chunk + input[pos..])
    decreases |input| - pos
  {
    var c := input[pos];
    if pos + 1 == |input| {
      assert input[pos..] == [c];
      if |chunk| + 1 < SAVE_CHUNK {
        assert ScanChunk(input, pos + 1, chunk + [c]) == (pos + 1, chunk + [c]);
      }
    } else {
      ScanChunkRest(input, pos + 1, chunk + [c]);
      assert chunk + [c] + input[pos + 1..] == chunk + input[pos..];
    }
  }

  /** A payload of at most 256 bytes without CR or NUL that does not start
      with white space is stored unchanged. */
  lemma ChunksVerbatim(input: seq<byte>, pos: nat)
    requires pos < |input| && |input| - pos <= SAVE_CHUNK
    requires forall j :: pos <= j < |input| ==> input[j] != CR && input[j] != NUL
    requires !IsDelimiter(input[pos])
    ensures Chunks(input, pos) == ([input[pos..]], |input|)
  {
    ScanChunkRest(input, pos, []);
    assert [] + input[pos..] == input[pos..];
    assert Chunks(input, |input|) == ([], |input|);
    assert [input[pos..]] + [] == [input[pos..]];
  }

  /** UPLOAD's effect: the stream is consumed whether or not the file could
      be opened; the file gets the chunks when it could. */
  function SaveStream(input: seq<byte>, pos: nat, fs: FileStore, name: seq<byte>): (r: (nat, FileStore, seq<Event>))
    requires pos <= |input|
    ensures pos <= r.0 <= |input| && r.0 == Chunks(input, pos).1
    ensures r.1.writable == fs.writable && r.1.nameLimit == fs.nameLimit
    ensures fs.writable ==> r.1.files == fs.files[Key(fs, name) := Concat(Chunks(input, pos).0)] && r.2 == []
    ensures !fs.writable ==> r.1 == fs && r.2 == [UploadOpenFailed(name)]
  {
    var chr := Chunks(input, pos); var chunks, p := chr.0, chr.1;
    if fs.writable then (p, fs.(files := fs.files[Key(fs, name) := Concat(chunks)]), [])
    else (p, fs, [UploadOpenFailed(name)])
  }

  /** The uploaded file is the stream UPLOAD consumed, as `Uploaded`
      filters it. */
  lemma SaveStreamUploaded(input: seq<byte>, pos: nat, fs: FileStore, name: seq<byte>)
    requires pos <= |input| && fs.writable
    ensures var r := SaveStream(input, pos, fs, name);
      Key(fs, name) in r.1.files && r.1.files[Key(fs, name)] == Uploaded(input[pos..r.0], 0)
  {
    ChunksUploaded(input, pos);
  }

  /** `_parserSaveStream2File(client, filename)`, with its static 257-byte
      chunk buffer; returns whether the file could be opened for writing. */
  method SaveStream2File(input: seq<byte>, pos0: nat, fs: FileStore, name: seq<byte>)
    returns (ok: bool, pos: nat, fs': FileStore, events: seq<Event>)
    requires pos0 <= |input|
    ensures ok == fs.writable
    ensures (pos, fs', events) == SaveStream(input, pos0, fs, name)
  {
    var buffer := new byte[SAVE_CHUNK + 1];
    ok := fs.writable;
    events := if ok then [] else [UploadOpenFailed(name)];
    var written: seq<byte> := [];
    pos := pos0;
    ghost var target := Chunks(input, pos0);
    var len: nat := 1;
    while len > 0
      invariant pos0 <= pos <= |input|
      invariant len > 0 ==> Concat(target.0) == written + Concat(Chunks(input, pos).0) && target.1 == Chunks(input, pos).1
      invariant len == 0 ==> Concat(target.0) == written && target.1 == pos
      decreases |input| - pos + (if len > 0 then 1 else 0)
    {
      ghost var start := pos;
      pos, len := ReadChunk(input, pos, buffer);
      var chunk := buffer[..len];
      ChunksNext(input, start, pos, chunk);
      if len > 0 {
        buffer[len] := NUL;
        assert Concat(target.0) == (written + chunk) + Concat(Chunks(input, pos).0);
        written := written + chunk;
      }
    }
    fs' := if ok then fs.(files := fs.files[Key(fs, name) := written]) else fs;
  }

  /** One turn of the outer loop of `_parserSaveStream2File`: a chunk read
      from `start` ends the upload when empty, and is otherwise written
      ahead of the chunks after it. */
  lemma ChunksNext(input: seq<byte>, start: nat, p: nat, chunk: seq<byte>)
    requires start <= |input| && ScanChunk(input, start, []) == (p, chunk)
    ensures |chunk| == 0 ==> Chunks(input, start) == ([], p) && Concat([]) == []
    ensures |chunk| > 0 ==>
      Chunks(input, start).1 == Chunks(input, p).1 &&
      Concat(Chunks(input, start).0) == chunk + Concat(Chunks(input, p).0)
  {
    if |chunk| > 0 {
      ConcatHead(chunk, Chunks(input, p).0);
    }
  }

  /** The inner loop of `_parserSaveStream2File`: one chunk into `buffer`. */
  method ReadChunk(input: seq<byte>, pos0: nat, buffer: array<byte>) returns (pos: nat, len: nat)
    requires pos0 <= |input| && buffer.Length == SAVE_CHUNK + 1
    modifies buffer
    ensures len <= SAVE_CHUNK
    ensures (pos, buffer[..len]) == ScanChunk(input, pos0, [])
  {
    pos, len := pos0, 0;
    while pos < |input|
      invariant pos0 <= pos <= |input| && len < SAVE_CHUNK
      invariant ScanChunk(input, pos, buffer[..len]) == ScanChunk(input, pos0, [])
    {
      var c := input[pos];
      pos := pos + 1;
      if c == CR {
        continue;
      }
      if IsDelimiter(c) && len == 0 {
        continue;
      }
      if c == NUL {
        break;
      }
      buffer[len] := c;
      assert buffer[..len + 1] == buffer[..len] + [c];
      len := len + 1;
      if len == SAVE_CHUNK {
        break;
      }
    }
  }

  // ---------------------------------------------------------------------------
  // CAT: _parserReadFile2Stream

  /** The lines the loop of `_parserReadFile2Stream` reads from a file's
      content with `streamReadLine(&input, buffer, 256, false)`. */
  function CatLines(content: seq<byte>, pos: nat): (r: seq<seq<byte>>)
    requires pos <= |content|
    ensures |r| <= |content| - pos
    decreases |content| - pos
  {
    ReadLineSpec(content, pos, CAT_LINE_SIZE, false);
    ReadLineConsumes(content, pos, CAT_LINE_SIZE - 1, false, false, []);
    var lr := ReadLine(content, pos, CAT_LINE_SIZE, false); var l, p := lr.0, lr.1;
    if |l| == 0 then [] else [l] + CatLines(content, p)
  }

  /** The lines cover the content, without its carriage returns, and each is
      1 to 255 bytes holding a newline at most at its end. */
  lemma {:induction false} CatLinesSpec(content: seq<byte>, pos: nat)
    requires pos <= |content|
    ensures var lines := CatLines(content, pos);
      Concat(lines) == RemoveCR(content[pos..]) &&
      forall i :: 0 <= i < |lines| ==>
        0 < |lines[i]| < CAT_LINE_SIZE && CR !in lines[i] &&
        forall j :: 0 <= j < |lines[i]| - 1 ==> lines[i][j] != LF
    decreases |content| - pos
  {
    ReadLineSpec(content, pos, CAT_LINE_SIZE, false);
    ReadLineConsumes(content, pos, CAT_LINE_SIZE - 1, false, false, []);
    var lr := ReadLine(content, pos, CAT_LINE_SIZE, false); var l, p := lr.0, lr.1;
    assert content[pos..] == content[pos..p] + content[p..];
    RemoveCRAppend(content[pos..p], content[p..]);
    if |l| > 0 {
      CatLinesSpec(content, p);
      var lines := CatLines(content, pos);
      assert lines == [l] + CatLines(content, p);
      assert lines[1..] == CatLines(content, p);
    } else {
      assert p == |content|;
    }
  }

  /** What CAT prints for the lines it reads: each line, newline stripped,
      up to any NUL. */
  function LineEvents(lines: seq<seq<byte>>): (r: seq<Event>)
    ensures |r| == |lines|
  {
    seq(|lines|, i requires 0 <= i < |lines| => CatLine(CString(StripNewline(lines[i]))))
  }

  lemma LineEventsStep(lines: seq<seq<byte>>)
    requires |lines| > 0
    ensures LineEvents(lines) == [CatLine(CString(StripNewline(lines[0])))] + LineEvents(lines[1..])
  {
  }

  /** The header, then one line of text per line read. */
  function CatOutput(name: seq<byte>, lines: seq<seq<byte>>): (r: seq<Event>)
    ensures |r| == 1 + |lines| && r[0] == CatHeader(name)
    ensures forall i :: 0 <= i < |lines| ==> r[i + 1] == CatLine(CString(StripNewline(lines[i])))
  {
    [CatHeader(name)] + LineEvents(lines)
  }

  /** CAT's output for a file: the header, then either the open error or one
      line of text per line read, newline stripped, up to any NUL. */
  function CatEvents(fs: FileStore, name: seq<byte>): (r: seq<Event>)
    ensures |r| >= 1 && r[0] == CatHeader(name)
    ensures Key(fs, name) !in fs.files ==> r == [CatHeader(name), CatOpenFailed(name)]
    ensures Key(fs, name) in fs.files ==>
      var lines := CatLines(fs.files[Key(fs, name)], 0);
      |r| == 1 + |lines| && forall i :: 0 <= i < |lines| ==> r[i + 1] == CatLine(CString(StripNewline(lines[i])))
  {
    var key := Key(fs, name);
    if key !in fs.files then [CatHeader(name), CatOpenFailed(name)]
    else CatOutput(name, CatLines(fs.files[key], 0))
  }

  /** `_parserReadFile2Stream(client, filename)` with its static 257-byte line
      buffer.  It reports failure in every case: `success` is never set. */
  method ReadFile2Stream(fs: FileStore, name: seq<byte>) returns (ok: bool, events: seq<Event>)
    ensures !ok
    ensures events == CatEvents(fs, name)
  {
    ok := false;
    events := [CatHeader(name)];
    var key := Key(fs, name);
    if key !in fs.files {
      events := events + [CatOpenFailed(name)];
      return;
    }
    var content := fs.files[key];
    var buffer := new byte[CAT_LINE_SIZE + 1];
    var pos: nat := 0;
    while true
      invariant pos <= |content|
      invariant events + LineEvents(CatLines(content, pos)) == [CatHeader(name)] + LineEvents(CatLines(content, 0))
      decreases |content| - pos
    {
      var next, text := CatNextLine(content, pos, buffer);
      if text.None? {
        assert LineEvents(CatLines(content, pos)) == [];
        break;
      }
      LineEventsAdvance(events, CatLines(content, pos), text.value);
      events := events + [CatLine(text.value)];
      pos := next;
    }
    assert events == CatOutput(name, CatLines(content, 0));
  }

  /** Printing the first line read leaves the output of the rest to come. */
  lemma LineEventsAdvance(events: seq<Event>, lines: seq<seq<byte>>, text: seq<byte>)
    requires |lines| > 0 && text == CString(StripNewline(lines[0]))
    ensures events + [CatLine(text)] + LineEvents(lines[1..]) == events + LineEvents(lines)
  {
    LineEventsStep(lines);
  }

  /** One pass of the loop of `_parserReadFile2Stream`: read a line into
      `buffer` and strip its newline; `text` is what is printed, or nothing
      when the line read was empty and the loop ends. */
  method CatNextLine(content: seq<byte>, pos0: nat, buffer: array<byte>) returns (pos: nat, text: Option<seq<byte>>)
    requires pos0 <= |content| && buffer.Length == CAT_LINE_SIZE + 1
    modifies buffer
    ensures text.None? ==> CatLines(content, pos0) == []
    ensures text.Some? ==>
      pos0 < pos <= |content| && |CatLines(content, pos0)| > 0 &&
      CatLines(content, pos0)[1..] == CatLines(content, pos) &&
      text.value == CString(StripNewline(CatLines(content, pos0)[0]))
  {
    ReadLineSpec(content, pos0, CAT_LINE_SIZE, false);
    ReadLineConsumes(content, pos0, CAT_LINE_SIZE - 1, false, false, []);
    var len;
    len, pos := StreamReadLine(content, pos0, buffer, CAT_LINE_SIZE, false);
    if len == 0 {
      return pos, None;
    }
    ghost var line := buffer[..len];
    assert CatLines(content, pos0) == [line] + CatLines(content, pos);
    var m := StripNl(buffer, len);
    text := Some(CString(buffer[..m]));
  }

  // ---------------------------------------------------------------------------
  // _parser_trim and _is_printable

  /** The bytes `_parser_trim` treats as trailing white space. */
  predicate IsTrailing(c: byte)
  {
    c == LF || c == CR || c == TAB || c == SPACE
  }

  /** The index after which `_parser_trim` cuts a line: the last index from 1
      on that holds something other than trailing white space, or 0 when
      there is none.  Index 0 itself is never examined. */
  function LastKept(s: seq<byte>): (k: nat)
    ensures k == 0 || k < |s|
    ensures k > 0 ==> !IsTrailing(s[k]) && forall j :: k < j < |s| ==> IsTrailing(s[j])
    ensures k == 0 ==> forall j :: 1 <= j < |s| ==> IsTrailing(s[j])
  {
    if |s| <= 1 then 0
    else if !IsTrailing(s[|s| - 1]) then |s| - 1
    else LastKept(s[..|s| - 1])
  }

  /** Trailing white space is cut after the last other byte, but a line whose
      only other byte is its first is left as it is. */
  lemma LastKeptExamples()
    ensures LastKept("ab \r\n") == 1
    ensures LastKept("a\n") == 0
    ensures LastKept(" \t") == 0
  {
    assert "ab \r\n"[..4] == "ab \r" && "ab \r"[..3] == "ab " && "ab "[..2] == "ab";
  }

  /** `_parser_trim(line)` on a C string of length `n`: writes a NUL after the
      last kept byte and reports whether it did. */
  method Trim(line: array<byte>, n: nat) returns (trimmed: bool)
    requires n < line.Length && line[n] == NUL
    requires forall j :: 0 <= j < n ==> line[j] != NUL
    modifies line
    ensures trimmed <==> LastKept(old(line[..n])) > 0
    ensures trimmed ==> line[..] == old(line[..])[LastKept(old(line[..n])) + 1 := NUL]
    ensures !trimmed ==> line[..] == old(line[..])
  {
    ghost var s := line[..n];
    var i: int := n - 1;
    while i > 0
      invariant -1 <= i < n
      invariant forall j :: i < j < n ==> IsTrailing(s[j])
      invariant line[..] == old(line[..])
    {
      if IsTrailing(line[i]) {
        i := i - 1;
        continue;
      }
      assert !IsTrailing(s[i]);
      line[i + 1] := NUL;
      return true;
    }
    return false;
  }

  /** `_is_printable(line)`: true for the empty string, otherwise whether some
      byte is printable; `line` is the buffer, and only the C string it holds,
      up to the first NUL, is examined. */
  method IsPrintable(line: seq<byte>) returns (printable: bool)
    ensures var s := CString(line);
      printable <==> |s| == 0 || exists i :: 0 <= i < |s| && IsPrint(s[i])
  {
    var n := |CString(line)|;
    if n == 0 {
      return true;
    }
    printable := false;
    var i := 0;
    while i < n
      invariant 0 <= i <= n
      invariant !printable
      invariant forall j :: 0 <= j < i ==> !IsPrint(line[j])
    {
      if IsPrint(line[i]) {
        printable := true;
        break;
      }
      i := i + 1;
    }
  }

  // ---------------------------------------------------------------------------
  // The dispatcher

  /** The locals of `parserProcessCommands` that survive from one pass of its
      do-while loop to the next: the read index into the client stream, the
      active command (`command_id` other than PARSER_CMD_NONE), `expecting_args`,
      `args`, the line buffer up to `len`, the output so far and the files. */
  datatype PassState = PassState(pos: nat, cmd: Option<nat>, expecting: bool, args: nat,
                                 line: seq<byte>, trace: seq<Event>, fs: FileStore)

  function Init(fs: FileStore): (r: PassState)
    ensures Pending(r) && r.pos == 0 && r.trace == [] && r.fs == fs
  {
    PassState(0, None, false, 0, [], [], fs)
  }

  predicate Fits(input: seq<byte>, st: PassState)
  {
    st.pos <= |input| && (st.cmd.Some? ==> st.cmd.value < |Table|)
  }

  /** How a state left by one pass looks: either no command is active, or a
      command is waiting for an argument it still needs, with at most
      MAX_NETWORK_TEXT + 1 bytes of earlier arguments in the buffer. */
  predicate Pending(st: PassState)
  {
    st.cmd.Some? ==>
      st.cmd.value < |Table| && st.expecting && st.args < Table[st.cmd.value].args &&
      (st.args == 0 ==> st.line == []) && |st.line| <= MAX_NETWORK_TEXT + 1
  }

  /** The reset at the top of a pass when no command is active. */
  function Begin(st: PassState): (r: PassState)
    ensures r.pos == st.pos && r.cmd == st.cmd && r.trace == st.trace && r.fs == st.fs
  {
    if st.cmd.None? then st.(expecting := false, args := 0, line := []) else st
  }

  /** The line buffer with its first `n` bytes overwritten by spaces, as
      after a command name is recognised. */
  function Blanked(line: seq<byte>, n: nat): (r: seq<byte>)
    requires n <= |line|
    ensures |r| == |line| && r[n..] == line[n..]
    ensures forall i :: 0 <= i < n ==> r[i] == SPACE
  {
    Repeat(SPACE, n) + line[n..]
  }

  /** The effect of running the command at `index` of the table with the
      line buffer `line`. */
  function Effect(input: seq<byte>, pos: nat, fs: FileStore, index: nat, line: seq<byte>): (r: (nat, FileStore, seq<Event>))
    requires pos <= |input| && index < |Table|
    ensures pos <= r.0 <= |input|
    ensures index != UPLOAD_INDEX ==> r.0 == pos
    ensures index != DEL_INDEX && index != UPLOAD_INDEX ==> r.1 == fs
  {
    var name := CString(line);
    var id := Table[index].id;
    if id == CMD_HELP then (pos, fs, [HelpText])
    else if id == CMD_INFO then (pos, fs, InfoEvents(name))
    else if id == CMD_DIR then (pos, fs, [DirListing])
    else if id == CMD_DEL then
      (if Key(fs, name) in fs.files then (pos, fs.(files := fs.files - {Key(fs, name)}), [FileDeleted(name)])
       else (pos, fs, [NoSuchFile(name)]))
    else if id == CMD_CAT then (pos, fs, CatEvents(fs, name))
    else SaveStream(input, pos, fs, name)
  }

  /** The abort rule and the command switch. */
  function Dispatch(input: seq<byte>, st: PassState, aborted: bool): (r: PassState)
    requires Fits(input, st) && st.cmd.Some?
    ensures Fits(input, r) && r.cmd.None? && st.pos <= r.pos
  {
    var c := Table[st.cmd.value];
    if aborted && c.abortable then
      st.(cmd := None, pos := if c.hasStream then |input| else st.pos)
    else
      var e := Effect(input, st.pos, st.fs, st.cmd.value, st.line);
      st.(cmd := None, pos := e.0, fs := e.1, trace := st.trace + e.2)
  }

  /** Argument accumulation for the active command, then dispatch once it
      has all its arguments. */
  function OnArgument(input: seq<byte>, st: PassState, aborted: bool): (r: PassState)
    requires Fits(input, st) && st.cmd.Some? && |st.line| >= 1
    ensures Fits(input, r) && st.pos <= r.pos
  {
    var c := Table[st.cmd.value];
    if c.id > CMD_HELP && c.args > st.args then
      var st1 :=
        if !st.expecting then st.(expecting := true, line := [])
        else if c.args > st.args + 1 then st.(args := st.args + 1, line := st.line[|st.line| - 1 := SPACE])
        else st.(args := st.args + 1);
      if c.args > st1.args then st1 else Dispatch(input, st1, aborted)
    else Dispatch(input, st, aborted)
  }

  /** What a pass does with a non-empty token (its NUL already appended). */
  function OnToken(input: seq<byte>, st: PassState, aborted: bool, flushDrains: bool): (r: PassState)
    requires Fits(input, st) && |st.line| >= 1
    ensures Fits(input, r) && st.pos <= r.pos
  {
    if st.cmd.Some? then OnArgument(input, st, aborted)
    else
      match Lookup(st.line[..|st.line| - 1])
      case None =>
        st.(trace := st.trace + [Unrecognized(CString(st.line)), Flushed],
            pos := if flushDrains then |input| else st.pos)
      case Some(i) =>
        LookupSpec(st.line[..|st.line| - 1]);
        OnArgument(input, st.(cmd := Some(i), line := Blanked(st.line, |Table[i].name|)), aborted)
  }

  /** One pass of the do-while loop of `parserProcessCommands`.
      `flushDrains` is whether `client->flush()` discards the unread input,
      which depends on the client (the ioStream of io.h clears it). */
  function Iterate(input: seq<byte>, st: PassState, aborted: bool, flushDrains: bool): (r: PassState)
    requires Fits(input, st)
    ensures Fits(input, r) && st.pos <= r.pos
    ensures st.pos < |input| ==> st.pos < r.pos
  {
    var s0 := Begin(st);
    var sr := ScanToken(input, s0.pos, s0.line); var p, line := sr.0, sr.1;
    if |line| == 0 then s0.(pos := p, line := line)
    else OnToken(input, s0.(pos := p, line := line + [NUL]), aborted, flushDrains)
  }

  /** The do-while loop from `st` on: it runs while the client has data. */
  function Run(input: seq<byte>, st: PassState, aborted: bool, flushDrains: bool): (r: PassState)
    requires Fits(input, st)
    ensures Fits(input, r) && r.pos == |input|
    decreases |input| - st.pos
  {
    var s := Iterate(input, st, aborted, flushDrains);
    if s.pos < |input| then Run(input, s, aborted, flushDrains) else s
  }

  /** A whole call of `parserProcessCommands` on a client stream. */
  function Pass(input: seq<byte>, aborted: bool, flushDrains: bool, fs: FileStore): (r: PassState)
    ensures r.pos == |input|
  {
    Run(input, Init(fs), aborted, flushDrains)
  }

  /** The highest line buffer index the next pass writes: the NUL after the
      token.  (Spaces from the name, the separator and the token itself all
      go below it.) */
  function LineWriteEnd(input: seq<byte>, st: PassState): nat
    requires st.pos <= |input|
  {
    |ScanToken(input, Begin(st).pos, Begin(st).line).1|
  }

  /** Every pass starts from a `Pending` state and leaves one. */
  lemma IterateKeepsPending(input: seq<byte>, st: PassState, aborted: bool, flushDrains: bool)
    requires Fits(input, st) && Pending(st)
    ensures Pending(Iterate(input, st, aborted, flushDrains))
  {
    TableFacts();
    var s0 := Begin(st);
    var sr := ScanToken(input, s0.pos, s0.line); var p, line := sr.0, sr.1;
    if |line| > 0 {
      var s1 := s0.(pos := p, line := line + [NUL]);
      if s1.cmd.None? {
        LookupSpec(s1.line[..|s1.line| - 1]);
      }
    }
  }

  /** With a buffer of MAX_NETWORK_TEXT + 3 bytes, every write of a pass is
      in bounds. */
  lemma LineWritesFit(input: seq<byte>, st: PassState)
    requires Fits(input, st) && Pending(st)
    ensures LineWriteEnd(input, st) < LINE_BUF_SIZE
  {
  }

  /** `g_network_buf` has MAX_NETWORK_TEXT + 2 bytes, but an INFO command whose
      first argument fills the tokenizer's 256-byte chunk gets its separator
      added and the next byte stored after it, so the pass that follows writes
      its NUL at index 258, one past the end of that buffer. */
  lemma NetworkBufOverrun(fs: FileStore, arg: seq<byte>, next: byte)
    requires |arg| == MAX_NETWORK_TEXT && IsTokenByte(next)
    requires forall i :: 0 <= i < |arg| ==> IsTokenByte(arg[i])
    ensures var input := "INFO " + arg + [next];
      var s2 := Iterate(input, Iterate(input, Init(fs), false, false), false, false);
      Fits(input, s2) && Pending(s2) && LineWriteEnd(input, s2) == NETWORK_BUF_SIZE
  {
    var input := "INFO " + arg + [next];
    InfoFirstPass(fs, input, false);
    OverrunSecondPass(fs, input);
    var s2 := PassState(261, Some(INFO_INDEX), true, 1, arg + [SPACE], [], fs);
    assert input[261] == next;
    assert ScanToken(input, 261, s2.line) == (262, s2.line + [next]);
  }

  /** A first pass over "INFO " recognises INFO and waits for its first
      argument. */
  lemma InfoFirstPass(fs: FileStore, input: seq<byte>, flushDrains: bool)
    requires |input| > 5 && input[..5] == "INFO "
    ensures Iterate(input, Init(fs), false, flushDrains) == PassState(5, Some(INFO_INDEX), true, 0, [], [], fs)
  {
    assert ScanToken(input, 0, []) == (5, "INFO") by {
      assert input[0..4] == "INFO" && input[4] == ' ';
      WordAt(input, 0, "INFO");
    }
    assert Lookup("INFO") == Some(INFO_INDEX) by {
      assert !EqualsIgnoreCase(Table[0].name, "INFO") by {
        assert ToLower(Table[0].name[0]) != ToLower("INFO"[0]);
      }
    }
    var t := Init(fs).(pos := 5, line := "INFO" + [NUL]);
    assert Blanked(t.line, 4) == "    " + [NUL];
    assert Iterate(input, Init(fs), false, flushDrains) == OnToken(input, t, false, flushDrains);
  }

  /** The second pass stores the 256-byte argument and replaces its NUL by
      the separator. */
  lemma OverrunSecondPass(fs: FileStore, input: seq<byte>)
    requires |input| > 261 && forall j :: 5 <= j < 261 ==> IsTokenByte(input[j])
    ensures Iterate(input, PassState(5, Some(INFO_INDEX), true, 0, [], [], fs), false, false)
      == PassState(261, Some(INFO_INDEX), true, 1, input[5..261] + [SPACE], [], fs)
  {
    var s1 := PassState(5, Some(INFO_INDEX), true, 0, [], [], fs);
    var arg := input[5..261];
    assert input[5..260] == arg[..255] && input[260] == arg[255];
    ScanTokenTakes(input, 5, [], 255);
    assert [] + arg[..255] + [arg[255]] == arg;
    assert ScanToken(input, 5, []) == (261, arg);
    var t := s1.(pos := 261, line := arg + [NUL]);
    assert Iterate(input, s1, false, false) == OnArgument(input, t, false);
    assert (arg + [NUL])[MAX_NETWORK_TEXT := SPACE] == arg + [SPACE];
  }

  /** Output that does not depend on the file store: the only events a
      pass may produce when it was asked to abort. */
  predicate Harmless(e: Event)
  {
    e.Unrecognized? || e.Flushed? || e.HelpText?
  }

  /** `b` follows `a` with the same files and only harmless output added. */
  predicate HarmlessAfter(a: PassState, b: PassState)
  {
    b.fs == a.fs && |a.trace| <= |b.trace| && b.trace[..|a.trace|] == a.trace &&
    forall i :: |a.trace| <= i < |b.trace| ==> Harmless(b.trace[i])
  }

  lemma HarmlessAfterTrans(a: PassState, b: PassState, c: PassState)
    requires HarmlessAfter(a, b) && HarmlessAfter(b, c)
    ensures HarmlessAfter(a, c)
  {
    assert c.trace[..|a.trace|] == c.trace[..|b.trace|][..|a.trace|];
  }

  /** Under the abort flag a pass runs only HELP: the files are untouched and
      nothing but HELP and the unrecognised-command error is printed. */
  lemma IterateAbortedHarmless(input: seq<byte>, st: PassState, flushDrains: bool)
    requires Fits(input, st)
    ensures HarmlessAfter(st, Iterate(input, st, true, flushDrains))
  {
    var s0 := Begin(st);
    var sc := ScanToken(input, s0.pos, s0.line);
    if |sc.1| > 0 {
      var s1 := s0.(pos := sc.0, line := sc.1 + [NUL]);
      assert Iterate(input, st, true, flushDrains) == OnToken(input, s1, true, flushDrains);
      if s1.cmd.Some? {
        OnArgumentAbortedHarmless(input, s1);
      } else {
        var token := s1.line[..|s1.line| - 1];
        LookupSpec(token);
        if Lookup(token).Some? {
          var i := Lookup(token).value;
          OnArgumentAbortedHarmless(input, s1.(cmd := Some(i), line := Blanked(s1.line, |Table[i].name|)));
        }
      }
    }
  }

  /** Under the abort flag, the argument step and the switch leave the files
      alone and print at most the help text. */
  lemma OnArgumentAbortedHarmless(input: seq<byte>, st: PassState)
    requires Fits(input, st) && st.cmd.Some? && |st.line| >= 1
    ensures HarmlessAfter(st, OnArgument(input, st, true))
  {
    TableFacts();
    var c := Table[st.cmd.value];
    if c.id > CMD_HELP && c.args > st.args {
      var st1 :=
        if !st.expecting then st.(expecting := true, line := [])
        else if c.args > st.args + 1 then st.(args := st.args + 1, line := st.line[|st.line| - 1 := SPACE])
        else st.(args := st.args + 1);
      if c.args <= st1.args {
        DispatchAbortedHarmless(input, st1);
      }
    } else {
      DispatchAbortedHarmless(input, st);
    }
  }

  lemma DispatchAbortedHarmless(input: seq<byte>, st: PassState)
    requires Fits(input, st) && st.cmd.Some?
    ensures HarmlessAfter(st, Dispatch(input, st, true))
  {
    TableFacts();
    if !Table[st.cmd.value].abortable {
      assert st.cmd.value == HELP_INDEX;
      assert Dispatch(input, st, true).trace == st.trace + [HelpText];
    }
  }

  lemma {:induction false} RunAbortedHarmless(input: seq<byte>, st: PassState, flushDrains: bool)
    requires Fits(input, st)
    ensures HarmlessAfter(st, Run(input, st, true, flushDrains))
    decreases |input| - st.pos
  {
    var s := Iterate(input, st, true, flushDrains);
    IterateAbortedHarmless(input, st, flushDrains);
    if s.pos < |input| {
      RunAbortedHarmless(input, s, flushDrains);
      assert Run(input, st, true, flushDrains) == Run(input, s, true, flushDrains);
      HarmlessAfterTrans(st, s, Run(input, s, true, flushDrains));
    }
  }

  /** A call with `aborted` set leaves every file as it was and prints only
      HELP output and unrecognised-command errors. */
  lemma AbortedPassHarmless(input: seq<byte>, flushDrains: bool, fs: FileStore)
    ensures Pass(input, true, flushDrains, fs).fs == fs
    ensures forall e :: e in Pass(input, true, flushDrains, fs).trace ==> Harmless(e)
  {
    RunAbortedHarmless(input, Init(fs), flushDrains);
    var r := Pass(input, true, flushDrains, fs);
    forall e | e in r.trace
      ensures Harmless(e)
    {
      var i :| 0 <= i < |r.trace| && r.trace[i] == e;
    }
  }

  lemma CStringOfToken(t: seq<byte>)
    requires NUL !in t
    ensures CString(t + [NUL]) == t
    decreases |t|
  {
    if t != [] {
      assert (t + [NUL])[1..] == t[1..] + [NUL];
      CStringOfToken(t[1..]);
    }
  }

  /** `UPLOAD <name>` on its own line takes over the rest of the stream: when
      the rest holds no NUL it all goes to the file (or is dropped when the
      file cannot be opened), and the call ends there. */
  lemma UploadTakesOver(input: seq<byte>, name: seq<byte>, flushDrains: bool, fs: FileStore)
    requires 0 < |name| < MAX_NETWORK_TEXT && forall i :: 0 <= i < |name| ==> IsTokenByte(name[i])
    requires |input| >= 8 + |name| && input[..7] == "UPLOAD " && input[7..7 + |name|] == name && input[7 + |name|] == LF
    requires forall j :: 8 + |name| <= j < |input| ==> input[j] != NUL
    ensures var r := Pass(input, false, flushDrains, fs);
      var e := SaveStream(input, 8 + |name|, fs, name);
      r.cmd.None? && r.fs == e.1 && r.trace == e.2
  {
    var s1 := PassState(7, Some(UPLOAD_INDEX), true, 0, [], [], fs);
    UploadFirstPass(input, flushDrains, fs);
    UploadSecondPass(input, name, flushDrains, fs);
    ChunksConsumeAll(input, 8 + |name|);
    var e := SaveStream(input, 8 + |name|, fs, name);
    var s2 := PassState(e.0, None, true, 1, name + [NUL], e.2, e.1);
    assert e.0 == |input|;
    assert Run(input, Init(fs), false, flushDrains) == Run(input, s1, false, flushDrains);
    assert Run(input, s1, false, flushDrains) == s2;
  }

  lemma UploadFirstPass(input: seq<byte>, flushDrains: bool, fs: FileStore)
    requires |input| > 7 && input[..7] == "UPLOAD "
    ensures Iterate(input, Init(fs), false, flushDrains) == PassState(7, Some(UPLOAD_INDEX), true, 0, [], [], fs)
  {
    assert ScanToken(input, 0, []) == (7, "UPLOAD") by {
      assert input[0..6] == "UPLOAD" && input[6] == ' ';
      WordAt(input, 0, "UPLOAD");
    }
    assert Lookup("UPLOAD") == Some(UPLOAD_INDEX);
    var t := Init(fs).(pos := 7, line := "UPLOAD" + [NUL]);
    assert Iterate(input, Init(fs), false, flushDrains) == OnToken(input, t, false, flushDrains);
  }

  lemma UploadSecondPass(input: seq<byte>, name: seq<byte>, flushDrains: bool, fs: FileStore)
    requires 0 < |name| < MAX_NETWORK_TEXT && forall i :: 0 <= i < |name| ==> IsTokenByte(name[i])
    requires |input| >= 8 + |name| && input[7..7 + |name|] == name && input[7 + |name|] == LF
    ensures var e := SaveStream(input, 8 + |name|, fs, name);
      Iterate(input, PassState(7, Some(UPLOAD_INDEX), true, 0, [], [], fs), false, flushDrains)
        == PassState(e.0, None, true, 1, name + [NUL], e.2, e.1)
  {
    var s1 := PassState(7, Some(UPLOAD_INDEX), true, 0, [], [], fs);
    UploadNameToken(input, name);
    CStringOfToken(name);
    var t := s1.(pos := 8 + |name|, line := name + [NUL]);
    assert Iterate(input, s1, false, flushDrains) == OnArgument(input, t, false);
    assert OnArgument(input, t, false) == Dispatch(input, t.(args := 1), false);
  }

  /** The token after "UPLOAD " is the file name, ended by its newline. */
  lemma UploadNameToken(input: seq<byte>, name: seq<byte>)
    requires 0 < |name| < MAX_NETWORK_TEXT && forall i :: 0 <= i < |name| ==> IsTokenByte(name[i])
    requires |input| >= 8 + |name| && input[7..7 + |name|] == name && input[7 + |name|] == LF
    ensures ScanToken(input, 7, []) == (8 + |name|, name)
  {
    forall j | 7 <= j < 7 + |name|
      ensures IsTokenByte(input[j])
    {
      assert input[j] == input[7..7 + |name|][j - 7];
    }
    ScanTokenTakes(input, 7, [], |name|);
    assert [] + input[7..7 + |name|] == name;
  }

  /** An unrecognised first token is reported and the client flushed; when
      the flush discards the unread input, that ends the call. */
  lemma UnrecognizedFlushes(input: seq<byte>, token: seq<byte>, aborted: bool, fs: FileStore)
    requires 0 < |token| < MAX_NETWORK_TEXT && forall i :: 0 <= i < |token| ==> IsTokenByte(token[i])
    requires Lookup(token).None?
    requires |input| > |token| && input[..|token|] == token && IsDelimiter(input[|token|])
    ensures Pass(input, aborted, true, fs) == PassState(|input|, None, false, 0, token + [NUL], [Unrecognized(token), Flushed], fs)
    ensures Iterate(input, Init(fs), aborted, false) == PassState(|token| + 1, None, false, 0, token + [NUL], [Unrecognized(token), Flushed], fs)
  {
    UnrecognizedPass(input, token, aborted, true, fs);
    UnrecognizedPass(input, token, aborted, false, fs);
  }

  lemma UnrecognizedPass(input: seq<byte>, token: seq<byte>, aborted: bool, flushDrains: bool, fs: FileStore)
    requires 0 < |token| < MAX_NETWORK_TEXT && forall i :: 0 <= i < |token| ==> IsTokenByte(token[i])
    requires Lookup(token).None?
    requires |input| > |token| && input[..|token|] == token && IsDelimiter(input[|token|])
    ensures Iterate(input, Init(fs), aborted, flushDrains)
      == PassState(if flushDrains then |input| else |token| + 1, None, false, 0, token + [NUL], [Unrecognized(token), Flushed], fs)
  {
    WordAt(input, 0, token);
    TokenWithNul(token);
  }

  lemma TokenWithNul(token: seq<byte>)
    requires forall i :: 0 <= i < |token| ==> IsTokenByte(token[i])
    ensures (token + [NUL])[..|token|] == token && CString(token + [NUL]) == token
  {
    CStringOfToken(token);
  }

  /** A pass that reads INFO's first argument `a`, ended by a delimiter or by
      the end of the input, keeps it with a separator in place of its NUL. */
  lemma InfoFirstArgument(fs: FileStore, input: seq<byte>, a: seq<byte>, flushDrains: bool)
    requires 0 < |a| < MAX_NETWORK_TEXT && forall i :: 0 <= i < |a| ==> IsTokenByte(a[i])
    requires 5 + |a| <= |input| && input[5..5 + |a|] == a
    requires 5 + |a| < |input| ==> IsDelimiter(input[5 + |a|])
    ensures Iterate(input, PassState(5, Some(INFO_INDEX), true, 0, [], [], fs), false, flushDrains)
      == PassState(if 5 + |a| < |input| then 6 + |a| else |input|, Some(INFO_INDEX), true, 1, a + [SPACE], [], fs)
  {
    var s1 := PassState(5, Some(INFO_INDEX), true, 0, [], [], fs);
    assert forall j :: 5 <= j < 5 + |a| ==> input[j] == a[j - 5];
    ScanTokenTakes(input, 5, [], |a|);
    assert [] + input[5..5 + |a|] == a;
    var p := if 5 + |a| < |input| then 6 + |a| else |input|;
    assert ScanToken(input, 5, []) == (p, a);
    var t := s1.(pos := p, line := a + [NUL]);
    assert Iterate(input, s1, false, flushDrains) == OnArgument(input, t, false);
    assert (a + [NUL])[|a| := SPACE] == a + [SPACE];
  }

  /** A word followed by a space is one conversion for `sscanf`. */
  lemma ScanInfoWordThenSpace(a: seq<byte>)
    requires 1 <= |a| <= INFO_WIDTH
    requires forall i :: 0 <= i < |a| ==> !IsSpace(a[i])
    ensures ScanInfo(a + [SPACE]) == Scanned(1, a, [])
  {
    var s := a + [SPACE];
    assert s[0] == a[0];
    WordLengthExact(s, INFO_WIDTH, |a|);
    assert s[|a|..] == [SPACE] && s[..|a|] == a;
    assert SkipSpace([SPACE]) == SkipSpace([SPACE][1..]);
  }

  /** A pass with a command active hands a non-empty token to the argument
      step. */
  lemma IterateArgument(input: seq<byte>, st: PassState, aborted: bool, flushDrains: bool, p: nat, line: seq<byte>)
    requires Fits(input, st) && st.cmd.Some?
    requires ScanToken(input, st.pos, st.line) == (p, line) && |line| > 0
    ensures Iterate(input, st, aborted, flushDrains) == OnArgument(input, st.(pos := p, line := line + [NUL]), aborted)
  {
  }

  /** The second argument completes INFO, which then runs on the line. */
  lemma InfoRuns(input: seq<byte>, st: PassState)
    requires Fits(input, st) && st.cmd == Some(INFO_INDEX) && st.expecting && st.args == 1 && |st.line| >= 1
    ensures OnArgument(input, st, false)
      == st.(cmd := None, args := 2, trace := st.trace + InfoEvents(CString(st.line)))
  {
    var c := Table[INFO_INDEX];
    assert c.id == CMD_INFO && c.args == 2;
    var st1 := st.(args := 2);
    assert OnArgument(input, st, false) == Dispatch(input, st1, false);
    assert Effect(input, st.pos, st.fs, INFO_INDEX, st.line) == (st.pos, st.fs, InfoEvents(CString(st.line)));
  }

  /** A short word that runs to the end of the input is appended to the
      buffer whole. */
  lemma AppendLastWord(input: seq<byte>, line: seq<byte>, b: seq<byte>)
    requires |line| + |b| < MAX_NETWORK_TEXT && |line| + |b| <= |input|
    requires input[|input| - |b|..] == b && forall i :: 0 <= i < |b| ==> IsTokenByte(b[i])
    ensures ScanToken(input, |input| - |b|, line) == (|input|, line + b)
  {
    var p := |input| - |b|;
    assert input[p..p + |b|] == b;
    forall j | p <= j < p + |b|
      ensures IsTokenByte(input[j])
    {
      assert input[j] == b[j - p];
    }
    ScanTokenTakes(input, p, line, |b|);
    assert ScanToken(input, |input|, line + b) == (|input|, line + b);
  }

  /** The pass that appends INFO's second argument `b`, which runs to the end
      of the input, after the separator, and runs INFO on the joined line. */
  lemma InfoSecondArgument(fs: FileStore, input: seq<byte>, a: seq<byte>, b: seq<byte>, flushDrains: bool)
    requires 1 <= |a| <= INFO_WIDTH && forall i :: 0 <= i < |a| ==> !IsSpace(a[i])
    requires 1 <= |b| <= INFO_WIDTH && forall i :: 0 <= i < |b| ==> IsTokenByte(b[i]) && !IsSpace(b[i])
    requires |input| == 6 + |a| + |b| && input[6 + |a|..] == b
    requires NUL !in a
    ensures Iterate(input, PassState(6 + |a|, Some(INFO_INDEX), true, 1, a + [SPACE], [], fs), false, flushDrains)
      == PassState(|input|, None, true, 2, a + [SPACE] + b + [NUL], [InfoParams(a, b)], fs)
  {
    var s2 := PassState(6 + |a|, Some(INFO_INDEX), true, 1, a + [SPACE], [], fs);
    var t := s2.(pos := |input|, line := a + [SPACE] + b + [NUL]);
    InfoSecondToken(input, s2, a, b, flushDrains);
    InfoSecondRuns(input, t, a, b);
  }

  /** The pass reads INFO's second argument to the end of the input and
      hands the joined arguments to argument handling. */
  lemma InfoSecondToken(input: seq<byte>, s2: PassState, a: seq<byte>, b: seq<byte>, flushDrains: bool)
    requires 1 <= |a| <= INFO_WIDTH && 1 <= |b| <= INFO_WIDTH
    requires forall i :: 0 <= i < |b| ==> IsTokenByte(b[i])
    requires |input| == 6 + |a| + |b| && input[6 + |a|..] == b
    requires s2 == PassState(6 + |a|, Some(INFO_INDEX), true, 1, a + [SPACE], [], s2.fs)
    ensures Iterate(input, s2, false, flushDrains)
      == OnArgument(input, s2.(pos := |input|, line := a + [SPACE] + b + [NUL]), false)
  {
    AppendLastWord(input, a + [SPACE], b);
    IterateArgument(input, s2, false, flushDrains, |input|, a + [SPACE] + b);
  }

  /** INFO runs on the joined arguments and prints both. */
  lemma InfoSecondRuns(input: seq<byte>, t: PassState, a: seq<byte>, b: seq<byte>)
    requires 1 <= |a| <= INFO_WIDTH && forall i :: 0 <= i < |a| ==> !IsSpace(a[i])
    requires 1 <= |b| <= INFO_WIDTH && forall i :: 0 <= i < |b| ==> IsTokenByte(b[i]) && !IsSpace(b[i])
    requires NUL !in a
    requires t == PassState(|input|, Some(INFO_INDEX), true, 1, a + [SPACE] + b + [NUL], [], t.fs)
    ensures OnArgument(input, t, false) == PassState(|input|, None, true, 2, t.line, [InfoParams(a, b)], t.fs)
  {
    InfoRuns(input, t);
    CStringOfToken(a + [SPACE] + b);
    ScanInfoAccepts(a, b);
  }

  /** `INFO a b` with two words of at most ten bytes prints both parameters:
      the arguments are joined by one space in the line buffer and `sscanf`
      splits them again.  No file changes and no command stays active. */
  lemma InfoTwoArgs(fs: FileStore, a: seq<byte>, b: seq<byte>, flushDrains: bool)
    requires 1 <= |a| <= INFO_WIDTH && forall i :: 0 <= i < |a| ==> IsTokenByte(a[i]) && !IsSpace(a[i])
    requires 1 <= |b| <= INFO_WIDTH && forall i :: 0 <= i < |b| ==> IsTokenByte(b[i]) && !IsSpace(b[i])
    ensures var r := Pass("INFO " + a + [SPACE] + b, false, flushDrains, fs);
      r.trace == [InfoParams(a, b)] && r.cmd.None? && r.fs == fs
  {
    var input := "INFO " + a + [SPACE] + b;
    assert input[..5] == "INFO " && input[5..5 + |a|] == a && input[5 + |a|] == SPACE;
    assert input[6 + |a|..] == b;
    InfoFirstPass(fs, input, flushDrains);
    InfoFirstArgument(fs, input, a, flushDrains);
    InfoSecondArgument(fs, input, a, b, flushDrains);
    var s1 := PassState(5, Some(INFO_INDEX), true, 0, [], [], fs);
    var s2 := PassState(6 + |a|, Some(INFO_INDEX), true, 1, a + [SPACE], [], fs);
    assert Run(input, Init(fs), false, flushDrains) == Run(input, s1, false, flushDrains);
    assert Run(input, s1, false, flushDrains) == Run(input, s2, false, flushDrains);
  }

  /** The pass after INFO's first argument when a second space follows the
      separator: the argument ends empty and INFO runs on `a` and a space. */
  lemma InfoEmptySecond(fs: FileStore, input: seq<byte>, a: seq<byte>, flushDrains: bool)
    requires 1 <= |a| <= INFO_WIDTH && forall i :: 0 <= i < |a| ==> IsTokenByte(a[i]) && !IsSpace(a[i])
    requires |input| > 6 + |a| && input[6 + |a|] == SPACE
    ensures Iterate(input, PassState(6 + |a|, Some(INFO_INDEX), true, 1, a + [SPACE], [], fs), false, flushDrains)
      == PassState(7 + |a|, None, true, 2, a + [SPACE, NUL], [InfoUsage(a + [SPACE], 1)], fs)
  {
    var s2 := PassState(6 + |a|, Some(INFO_INDEX), true, 1, a + [SPACE], [], fs);
    var t := s2.(pos := 7 + |a|, line := a + [SPACE] + [NUL]);
    InfoEmptyToken(input, s2, a, flushDrains);
    InfoEmptyRuns(input, t, a);
    SpaceThenNul(a);
  }

  /** The space right after INFO's first argument ends an empty second
      argument, and the buffer goes to argument handling. */
  lemma InfoEmptyToken(input: seq<byte>, s2: PassState, a: seq<byte>, flushDrains: bool)
    requires 1 <= |a| <= INFO_WIDTH
    requires |input| > 6 + |a| && input[6 + |a|] == SPACE
    requires s2 == PassState(6 + |a|, Some(INFO_INDEX), true, 1, a + [SPACE], [], s2.fs)
    ensures Iterate(input, s2, false, flushDrains)
      == OnArgument(input, s2.(pos := 7 + |a|, line := a + [SPACE] + [NUL]), false)
  {
    SpaceEndsToken(input, 6 + |a|, a + [SPACE]);
    IterateArgument(input, s2, false, flushDrains, 7 + |a|, a + [SPACE]);
  }

  /** INFO then runs on one word and a space, and prints its usage error. */
  lemma InfoEmptyRuns(input: seq<byte>, t: PassState, a: seq<byte>)
    requires 1 <= |a| <= INFO_WIDTH && forall i :: 0 <= i < |a| ==> IsTokenByte(a[i]) && !IsSpace(a[i])
    requires t == PassState(7 + |a|, Some(INFO_INDEX), true, 1, a + [SPACE] + [NUL], [], t.fs)
    requires t.pos <= |input|
    ensures OnArgument(input, t, false) == t.(cmd := None, args := 2, trace := [InfoUsage(a + [SPACE], 1)])
  {
    InfoRuns(input, t);
    InfoUsageOfSpaced(a);
  }

  lemma SpaceThenNul(a: seq<byte>)
    ensures a + [SPACE, NUL] == a + [SPACE] + [NUL]
  {
  }

  /** A delimiter ends a non-empty token and is consumed. */
  lemma SpaceEndsToken(input: seq<byte>, pos: nat, line: seq<byte>)
    requires pos < |input| && input[pos] == SPACE && |line| > 0
    ensures ScanToken(input, pos, line) == (pos + 1, line)
  {
    assert IsDelimiter(SPACE);
  }

  /** INFO on one word followed by an empty second argument prints usage. */
  lemma InfoUsageOfSpaced(a: seq<byte>)
    requires 1 <= |a| <= INFO_WIDTH && forall i :: 0 <= i < |a| ==> IsTokenByte(a[i]) && !IsSpace(a[i])
    ensures InfoEvents(CString(a + [SPACE] + [NUL])) == [InfoUsage(a + [SPACE], 1)]
  {
    CStringOfToken(a + [SPACE]);
    ScanInfoWordThenSpace(a);
  }

  /** A pass from a fresh state over an unknown word that runs to the end of
      the input. */
  lemma UnknownLastWord(input: seq<byte>, st: PassState, b: seq<byte>, flushDrains: bool)
    requires st.cmd.None? && st.pos + |b| == |input| && input[st.pos..] == b
    requires 0 < |b| < MAX_NETWORK_TEXT && forall i :: 0 <= i < |b| ==> IsTokenByte(b[i])
    requires Lookup(b).None?
    ensures Iterate(input, st, false, flushDrains)
      == PassState(|input|, None, false, 0, b + [NUL], st.trace + [Unrecognized(b), Flushed], st.fs)
  {
    AppendLastWord(input, [], b);
    assert [] + b == b;
    CStringOfToken(b);
    assert (b + [NUL])[..|b|] == b;
  }

  /** Two spaces between INFO's arguments: the separator keeps the buffer
      non-empty, so the second space ends the second argument empty and INFO
      runs on `a` and a space (one conversion, a usage error); the word after
      it is then read as a command name. */
  lemma InfoDoubleSpace(fs: FileStore, a: seq<byte>, b: seq<byte>, flushDrains: bool)
    requires 1 <= |a| <= INFO_WIDTH && forall i :: 0 <= i < |a| ==> IsTokenByte(a[i]) && !IsSpace(a[i])
    requires 0 < |b| < MAX_NETWORK_TEXT && forall i :: 0 <= i < |b| ==> IsTokenByte(b[i])
    requires Lookup(b).None?
    ensures var r := Pass("INFO " + a + [SPACE, SPACE] + b, false, flushDrains, fs);
      r.trace == [InfoUsage(a + [SPACE], 1), Unrecognized(b), Flushed] && r.fs == fs
  {
    var input: seq<byte> := "INFO " + a + [SPACE, SPACE] + b;
    DoubleSpaceLayout(input, a, b);
    DoubleSpaceRun(fs, input, a, b, flushDrains);
  }

  lemma DoubleSpaceLayout(input: seq<byte>, a: seq<byte>, b: seq<byte>)
    requires input == "INFO " + a + [SPACE, SPACE] + b
    ensures |input| == 7 + |a| + |b| && input[..5] == "INFO " && input[5..5 + |a|] == a
    ensures input[5 + |a|] == SPACE && input[6 + |a|] == SPACE && input[7 + |a|..] == b
  {
  }

  /** The passes of `InfoDoubleSpace`, over an input with that layout. */
  lemma DoubleSpaceRun(fs: FileStore, input: seq<byte>, a: seq<byte>, b: seq<byte>, flushDrains: bool)
    requires 1 <= |a| <= INFO_WIDTH && forall i :: 0 <= i < |a| ==> IsTokenByte(a[i]) && !IsSpace(a[i])
    requires 0 < |b| < MAX_NETWORK_TEXT && forall i :: 0 <= i < |b| ==> IsTokenByte(b[i])
    requires Lookup(b).None?
    requires |input| == 7 + |a| + |b| && input[..5] == "INFO " && input[5..5 + |a|] == a
    requires input[5 + |a|] == SPACE && input[6 + |a|] == SPACE && input[7 + |a|..] == b
    ensures var r := Run(input, Init(fs), false, flushDrains);
      r.trace == [InfoUsage(a + [SPACE], 1), Unrecognized(b), Flushed] && r.fs == fs
  {
    var s1 := PassState(5, Some(INFO_INDEX), true, 0, [], [], fs);
    var s2 := PassState(6 + |a|, Some(INFO_INDEX), true, 1, a + [SPACE], [], fs);
    var s3 := PassState(7 + |a|, None, true, 2, a + [SPACE, NUL], [InfoUsage(a + [SPACE], 1)], fs);
    InfoFirstPass(fs, input, flushDrains);
    RunStep(input, Init(fs), false, flushDrains);
    InfoFirstArgument(fs, input, a, flushDrains);
    RunStep(input, s1, false, flushDrains);
    InfoEmptySecond(fs, input, a, flushDrains);
    RunStep(input, s2, false, flushDrains);
    UnknownLastWord(input, s3, b, flushDrains);
  }

  /** A pass that leaves input unread is followed by another. */
  lemma RunStep(input: seq<byte>, st: PassState, aborted: bool, flushDrains: bool)
    requires Fits(input, st) && Iterate(input, st, aborted, flushDrains).pos < |input|
    ensures Run(input, st, aborted, flushDrains) == Run(input, Iterate(input, st, aborted, flushDrains), aborted, flushDrains)
  {
  }

  /** A command whose arguments do not all arrive before the input ends is
      never run: INFO with one argument leaves the call with INFO still
      active, nothing printed and no file changed. */
  lemma MissingArgumentNotRun(fs: FileStore, a: seq<byte>, flushDrains: bool)
    requires 0 < |a| < MAX_NETWORK_TEXT && forall i :: 0 <= i < |a| ==> IsTokenByte(a[i])
    ensures Pass("INFO " + a, false, flushDrains, fs)
      == PassState(5 + |a|, Some(INFO_INDEX), true, 1, a + [SPACE], [], fs)
  {
    var input := "INFO " + a;
    assert input[..5] == "INFO " && input[5..5 + |a|] == a;
    InfoFirstPass(fs, input, flushDrains);
    InfoFirstArgument(fs, input, a, flushDrains);
    var s1 := PassState(5, Some(INFO_INDEX), true, 0, [], [], fs);
    assert Run(input, Init(fs), false, flushDrains) == Run(input, s1, false, flushDrains);
  }

  /** A NUL right at the start of an upload ends `_parserSaveStream2File`
      with an empty file (when it could be opened), and the dispatcher goes on
      reading the bytes after the NUL as commands. */
  lemma UploadNulResumes(input: seq<byte>, name: seq<byte>, flushDrains: bool, fs: FileStore)
    requires 0 < |name| < MAX_NETWORK_TEXT && forall i :: 0 <= i < |name| ==> IsTokenByte(name[i])
    requires |input| > 9 + |name| && input[..7] == "UPLOAD " && input[7..7 + |name|] == name
    requires input[7 + |name|] == LF && input[8 + |name|] == NUL
    ensures var fs' := if fs.writable then fs.(files := fs.files[Key(fs, name) := []]) else fs;
      var trace := if fs.writable then [] else [UploadOpenFailed(name)];
      Pass(input, false, flushDrains, fs)
        == Run(input, PassState(9 + |name|, None, true, 1, name + [NUL], trace, fs'), false, flushDrains)
  {
    var s1 := PassState(7, Some(UPLOAD_INDEX), true, 0, [], [], fs);
    UploadFirstPass(input, flushDrains, fs);
    UploadSecondPass(input, name, flushDrains, fs);
    assert ScanChunk(input, 8 + |name|, []) == (9 + |name|, []);
    assert Chunks(input, 8 + |name|) == ([], 9 + |name|);
    assert Run(input, Init(fs), false, flushDrains) == Run(input, s1, false, flushDrains);
  }

  /** `parserProcessCommands(client, aborted)`: false when there is no client;
      otherwise it runs the passes over the client stream and reports whether
      it was not asked to abort.  The line buffer is MAX_NETWORK_TEXT + 3
      bytes, one more than `g_network_buf` (see `NetworkBufOverrun`). */
  method ProcessCommands(client: Option<seq<byte>>, aborted: bool, flushDrains: bool, fs: FileStore)
    returns (ok: bool, final: PassState)
    ensures client.None? ==> !ok && final == Init(fs)
    ensures client.Some? ==> ok == !aborted && final == Pass(client.value, aborted, flushDrains, fs)
  {
    if client.None? {
      return false, Init(fs);
    }
    var input := client.value;
    var linebuffer := new byte[LINE_BUF_SIZE];
    var pos: nat := 0;
    var cmd: Option<nat> := None;
    var expecting := false;
    var args: nat := 0;
    var len: nat := 0;
    var trace: seq<Event> := [];
    var store := fs;
    var more := true;
    while more
      invariant pos <= |input| && (cmd.Some? ==> cmd.value < |Table|) && len <= LINE_BUF_SIZE
      invariant Pending(PassState(pos, cmd, expecting, args, linebuffer[..len], trace, store))
      invariant more ==>
        (Run(input, PassState(pos, cmd, expecting, args, linebuffer[..len], trace, store), aborted, flushDrains)
         == Pass(input, aborted, flushDrains, fs))
      invariant !more ==>
        (PassState(pos, cmd, expecting, args, linebuffer[..len], trace, store)
         == Pass(input, aborted, flushDrains, fs))
      decreases |input| - pos + (if more then 1 else 0)
    {
      ghost var st := PassState(pos, cmd, expecting, args, linebuffer[..len], trace, store);
      IterateKeepsPending(input, st, aborted, flushDrains);
      pos, cmd, expecting, args, len, trace, store :=
        OnePass(input, linebuffer, pos, cmd, expecting, args, len, trace, store, aborted, flushDrains);
      more := pos < |input|;
    }
    return !aborted, PassState(pos, cmd, expecting, args, linebuffer[..len], trace, store);
  }

  /** One pass of the do-while loop of `parserProcessCommands`: the reset,
      the tokenizer, and what is done with a token. */
  method OnePass(input: seq<byte>, linebuffer: array<byte>, pos0: nat, cmd0: Option<nat>, expecting0: bool,
                 args0: nat, len0: nat, trace0: seq<Event>, store0: FileStore, aborted: bool, flushDrains: bool)
    returns (pos: nat, cmd: Option<nat>, expecting: bool, args: nat, len: nat, trace: seq<Event>, store: FileStore)
    requires linebuffer.Length == LINE_BUF_SIZE && len0 <= LINE_BUF_SIZE
    requires var st := PassState(pos0, cmd0, expecting0, args0, linebuffer[..len0], trace0, store0);
      Fits(input, st) && Pending(st)
    modifies linebuffer
    ensures len <= LINE_BUF_SIZE
    ensures PassState(pos, cmd, expecting, args, linebuffer[..len], trace, store) ==
      Iterate(input, PassState(pos0, cmd0, expecting0, args0, old(linebuffer[..len0]), trace0, store0), aborted, flushDrains)
  {
    pos, cmd, expecting, args, len, trace, store := pos0, cmd0, expecting0, args0, len0, trace0, store0;
    ghost var st := PassState(pos, cmd, expecting, args, linebuffer[..len], trace, store);
    ghost var next := Iterate(input, st, aborted, flushDrains);
    LineWritesFit(input, st);
    if cmd.None? {
      expecting := false;
      args := 0;
      len := 0;
    }
    ghost var s0 := Begin(st);
    assert PassState(pos, cmd, expecting, args, linebuffer[..len], trace, store) == s0;
    pos, len := ReadToken(input, pos, linebuffer, len);
    ghost var token := linebuffer[..len];
    assert (pos, token) == ScanToken(input, s0.pos, s0.line);
    if len > 0 {
      linebuffer[len] := NUL;
      len := len + 1;
      assert linebuffer[..len] == token + [NUL];
      ghost var s1 := s0.(pos := pos, line := token + [NUL]);
      assert next == OnToken(input, s1, aborted, flushDrains);
      if cmd.Some? {
        pos, cmd, expecting, args, len, trace, store :=
          TakeArgument(input, linebuffer, pos, cmd.value, expecting, args, len, trace, store, aborted);
      } else {
        assert linebuffer[..len - 1] == token;
        cmd := RecogniseCommand(linebuffer, len);
        if cmd.None? {
          trace := trace + [Unrecognized(CString(linebuffer[..len])), Flushed];
          if flushDrains {
            pos := |input|;
          }
        } else {
          ghost var s2 := PassState(pos, cmd, expecting, args, linebuffer[..len], trace, store);
          assert next == OnArgument(input, s2, aborted);
          pos, cmd, expecting, args, len, trace, store :=
            TakeArgument(input, linebuffer, pos, cmd.value, expecting, args, len, trace, store, aborted);
        }
      }
    }
    assert PassState(pos, cmd, expecting, args, linebuffer[..len], trace, store) == next;
  }

  /** The tokenizer loop of `parserProcessCommands`, appending to the line
      buffer after its first `len0` bytes. */
  method ReadToken(input: seq<byte>, pos0: nat, linebuffer: array<byte>, len0: nat) returns (pos: nat, len: nat)
    requires pos0 <= |input| && len0 <= linebuffer.Length
    requires |ScanToken(input, pos0, linebuffer[..len0]).1| < linebuffer.Length
    modifies linebuffer
    ensures len < linebuffer.Length
    ensures (pos, linebuffer[..len]) == ScanToken(input, pos0, old(linebuffer[..len0]))
  {
    ghost var scanned := ScanToken(input, pos0, linebuffer[..len0]);
    pos, len := pos0, len0;
    while pos < |input|
      invariant pos0 <= pos <= |input| && (len == len0 || len < MAX_NETWORK_TEXT)
      invariant len <= |scanned.1| < linebuffer.Length
      invariant ScanToken(input, pos, linebuffer[..len]) == scanned
    {
      var c := input[pos];
      pos := pos + 1;
      if c == NUL {
        break;
      }
      if c == CR {
        continue;
      }
      if IsDelimiter(c) {
        if len == 0 {
          continue;
        }
        break;
      }
      linebuffer[len] := c;
      assert linebuffer[..len + 1] == linebuffer[..len] + [c];
      len := len + 1;
      if len >= MAX_NETWORK_TEXT {
        break;
      }
    }
  }

  /** The table search of `parserProcessCommands` on the token in the line
      buffer, overwriting a recognised name with spaces. */
  method RecogniseCommand(linebuffer: array<byte>, len: nat) returns (cmd: Option<nat>)
    requires 1 <= len <= linebuffer.Length
    modifies linebuffer
    ensures cmd == Lookup(old(linebuffer[..len - 1]))
    ensures cmd.Some? ==>
      (cmd.value < |Table| && |Table[cmd.value].name| < len &&
       linebuffer[..len] == Blanked(old(linebuffer[..len]), |Table[cmd.value].name|))
    ensures cmd.None? ==> linebuffer[..len] == old(linebuffer[..len])
  {
    cmd := FindCommand(linebuffer[..len - 1]);
    if cmd.Some? {
      LookupSpec(linebuffer[..len - 1]);
      ghost var before := linebuffer[..len];
      var n := |Table[cmd.value].name|;
      var i := 0;
      while i < n
        invariant 0 <= i <= n < len
        invariant forall j :: 0 <= j < len ==> linebuffer[j] == if j < i then SPACE else before[j]
      {
        linebuffer[i] := SPACE;
        i := i + 1;
      }
      assert linebuffer[..len] == Blanked(before, n);
    }
  }

  /** Argument accumulation, the abort rule and the command switch for the
      active command at `index`. */
  method TakeArgument(input: seq<byte>, linebuffer: array<byte>, pos0: nat, index: nat, expecting0: bool,
                      args0: nat, len0: nat, trace0: seq<Event>, store0: FileStore, aborted: bool)
    returns (pos: nat, cmd: Option<nat>, expecting: bool, args: nat, len: nat, trace: seq<Event>, store: FileStore)
    requires pos0 <= |input| && index < |Table| && 1 <= len0 <= linebuffer.Length
    modifies linebuffer
    ensures len <= len0
    ensures PassState(pos, cmd, expecting, args, linebuffer[..len], trace, store) ==
      OnArgument(input, PassState(pos0, Some(index), expecting0, args0, old(linebuffer[..len0]), trace0, store0), aborted)
  {
    pos, cmd, expecting, args, len, trace, store := pos0, Some(index), expecting0, args0, len0, trace0, store0;
    var c := Table[index];
    if c.id > CMD_HELP && c.args > args {
      if !expecting {
        expecting := true;
        len := 0;
      } else {
        args := args + 1;
        if c.args > args {
          len := len - 1;
          linebuffer[len] := SPACE;
          len := len + 1;
        }
      }
      if c.args > args {
        return;
      }
    }
    if aborted && c.abortable {
      if c.hasStream {
        pos := |input|;
      }
      cmd := None;
    } else {
      var events;
      pos, store, events := Execute(input, pos, store, index, linebuffer[..len]);
      trace := trace + events;
      cmd := None;
    }
  }

  /** The command switch of `parserProcessCommands`. */
  method Execute(input: seq<byte>, pos: nat, fs: FileStore, index: nat, line: seq<byte>)
    returns (pos': nat, fs': FileStore, events: seq<Event>)
    requires pos <= |input| && index < |Table|
    ensures (pos', fs', events) == Effect(input, pos, fs, index, line)
  {
    var name := CString(line);
    var id := Table[index].id;
    pos', fs' := pos, fs;
    if id == CMD_HELP {
      events := [HelpText];
    } else if id == CMD_INFO {
      events := InfoEvents(name);
    } else if id == CMD_DIR {
      events := [DirListing];
    } else if id == CMD_DEL {
      if Key(fs, name) !in fs.files {
        events := [NoSuchFile(name)];
      } else {
        fs' := fs.(files := fs.files - {Key(fs, name)});
        events := [FileDeleted(name)];
      }
    } else if id == CMD_CAT {
      var ok;
      ok, events := ReadFile2Stream(fs, name);
    } else {
      var ok;
      ok, pos', fs', events := SaveStream2File(input, pos, fs, name);
    }
  }
}
