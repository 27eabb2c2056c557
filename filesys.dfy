/** The line and name utilities of filesys.h: `FILESYS_STRIP_NL`,
    `_filesys_fix_name`, `filesysGetType` and `streamReadLine`.

    A byte source (a `Stream*`) is its bytes and a read index: `available()`
    holds while the index is below the length.  The file-system calls that sit
    on SPIFFS are not part of this module. */
module Filesys {
  import opened Ascii

  const FILE_TYPE_UNKN: int := 0
  const FILE_TYPE_CMD: int := 1
  const FILE_TYPE_HEX: int := 2

  // ---------------------------------------------------------------------------
  // FILESYS_STRIP_NL

  /** The C string left by `FILESYS_STRIP_NL`: one trailing newline removed. */
  function StripNewline(s: seq<byte>): (r: seq<byte>)
    ensures |s| - 1 <= |r| <= |s| && r == s[..|r|]
    ensures |r| < |s| <==> |s| > 0 && s[|s| - 1] == LF
  {
    if |s| > 0 && s[|s| - 1] == LF then s[..|s| - 1] else s
  }

  /** Stripping undoes exactly one appended newline ... */
  lemma StripNewlineUndoesAppend(s: seq<byte>)
    ensures StripNewline(s + [LF]) == s
  {
    assert (s + [LF])[..|s|] == s;
  }

  /** ... and leaves a string that does not end in a newline alone. */
  lemma StripNewlineKeepsOthers(s: seq<byte>)
    requires s == [] || s[|s| - 1] != LF
    ensures StripNewline(s) == s
  {
  }

  /** `FILESYS_STRIP_NL(b, n)` on a buffer holding `n` bytes: when the last of
      them is a newline, `n` goes down by one and a NUL replaces the newline;
      otherwise buffer and length are untouched. */
  method StripNl(b: array<byte>, n: nat) returns (m: nat)
    requires n <= b.Length
    modifies b
    ensures m <= n
    ensures b[..m] == StripNewline(old(b[..n]))
    ensures m == n || (m == n - 1 && old(b[m]) == LF)
    ensures b[..] == if m == n then old(b[..]) else old(b[..])[m := NUL]
  {
    m := n;
    if m > 0 && b[m - 1] == LF {
      m := m - 1;
      b[m] := NUL;
    }
  }

  // ---------------------------------------------------------------------------
  // _filesys_fix_name

  function Min(a: int, b: int): int
  {
    if a <= b then a else b
  }

  /** The name with a leading slash forced on. */
  function Rooted(name: seq<byte>): (r: seq<byte>)
  {
    if |name| > 0 && name[0] == '/' then name else ['/'] + name
  }

  /** `_filesys_fix_name(name)`: `snprintf(filename, MAX_FILENAME_LEN, ...)`
      of the rooted name, so at most `maxLen - 1` bytes survive.  `maxLen` is
      `MAX_FILENAME_LEN`, which the build defines elsewhere. */
  function FixName(name: seq<byte>, maxLen: nat): (r: seq<byte>)
    requires maxLen >= 1
    ensures |r| == Min(|Rooted(name)|, maxLen - 1)
    ensures |r| <= maxLen - 1
    ensures r == Rooted(name)[..|r|]
    ensures maxLen >= 2 ==> r[0] == '/'
    ensures |name| > 0 && name[0] == '/' && |name| < maxLen ==> r == name
  {
    var full := Rooted(name);
    full[..Min(|full|, maxLen - 1)]
  }

  /** Fixing a fixed name changes nothing. */
  lemma FixNameIdempotent(name: seq<byte>, maxLen: nat)
    requires maxLen >= 1
    ensures FixName(FixName(name, maxLen), maxLen) == FixName(name, maxLen)
  {
    var once := FixName(name, maxLen);
    if maxLen >= 2 {
      assert Rooted(once) == once;
    } else {
      assert once == [];
    }
  }

  // ---------------------------------------------------------------------------
  // filesysGetType

  /** `strstr(s, pat) != NULL`, by scanning from the left. */
  predicate Occurs(pat: seq<byte>, s: seq<byte>)
    decreases |s|
  {
    |pat| <= |s| && (s[..|pat|] == pat || Occurs(pat, s[1..]))
  }

  /** `pat` sits in `s` starting at index `i`. */
  predicate OccursAt(pat: seq<byte>, s: seq<byte>, i: int)
  {
    0 <= i && i + |pat| <= |s| && s[i..i + |pat|] == pat
  }

  /** The scan finds `pat` exactly when it sits somewhere in `s`. */
  lemma {:induction false} OccursIff(pat: seq<byte>, s: seq<byte>)
    ensures Occurs(pat, s) <==> exists i :: OccursAt(pat, s, i)
    decreases |s|
  {
    if |pat| <= |s| {
      if s[..|pat|] == pat {
        assert OccursAt(pat, s, 0);
      } else {
        OccursIff(pat, s[1..]);
        if Occurs(pat, s[1..]) {
          var i :| OccursAt(pat, s[1..], i);
          SliceOfTail(s, i + 1, |pat|);
          assert OccursAt(pat, s, i + 1);
        } else {
          forall i | 0 < i && OccursAt(pat, s, i)
            ensures OccursAt(pat, s[1..], i - 1)
          {
            SliceOfTail(s, i, |pat|);
          }
        }
      }
    } else {
      forall i | OccursAt(pat, s, i)
        ensures false
      {
      }
    }
  }

  /** A slice of `s[1..]` is the slice of `s` one further on. */
  lemma SliceOfTail(s: seq<byte>, i: nat, n: nat)
    requires 1 <= i && i + n <= |s|
    ensures s[1..][i - 1..i - 1 + n] == s[i..i + n]
  {
    var t, u := s[1..][i - 1..i - 1 + n], s[i..i + n];
    forall k | 0 <= k < n
      ensures t[k] == u[k]
    {
    }
  }

  predicate NamesHex(name: seq<byte>)
  {
    Occurs(".HEX", name) || Occurs(".hex", name)
  }

  predicate NamesCmd(name: seq<byte>)
  {
    Occurs(".CMD", name) || Occurs(".cmd", name)
  }

  /** `filesysGetType(name)`: only the all-upper and all-lower spellings of the
      extensions are recognised, anywhere in the name, and ".HEX"/".hex" wins
      over ".CMD"/".cmd". */
  function GetType(name: seq<byte>): (t: int)
    ensures t in {FILE_TYPE_UNKN, FILE_TYPE_CMD, FILE_TYPE_HEX}
  {
    if NamesHex(name) then FILE_TYPE_HEX
    else if NamesCmd(name) then FILE_TYPE_CMD
    else FILE_TYPE_UNKN
  }

  /** The classification in terms of where the extension text sits. */
  lemma GetTypeMeaning(name: seq<byte>)
    ensures GetType(name) == FILE_TYPE_HEX <==>
      exists i :: OccursAt(".HEX", name, i) || OccursAt(".hex", name, i)
    ensures GetType(name) == FILE_TYPE_CMD <==>
      (forall i :: !OccursAt(".HEX", name, i) && !OccursAt(".hex", name, i)) &&
      exists i :: OccursAt(".CMD", name, i) || OccursAt(".cmd", name, i)
  {
    OccursIff(".HEX", name);
    OccursIff(".hex", name);
    OccursIff(".CMD", name);
    OccursIff(".cmd", name);
  }

  /** Mixed case is not recognised ... */
  lemma GetTypeMixedCase()
    ensures GetType("a.Hex") == FILE_TYPE_UNKN
  {
    var s: seq<byte> := "a.Hex";
    GetTypeMeaning(s);
    forall i
      ensures !OccursAt(".HEX", s, i) && !OccursAt(".hex", s, i)
      ensures !OccursAt(".CMD", s, i) && !OccursAt(".cmd", s, i)
    {
      if i < 0 || i + 4 > |s| {
      } else if i == 0 {
        assert s[i..i + 4][0] == 'a';
      } else {
        assert s[i..i + 4][1] == 'H' && s[i..i + 4][2] == 'e';
      }
    }
  }

  /** ... and a hex extension beats a command one. */
  lemma GetTypeHexWins()
    ensures GetType("a.cmd.hex") == FILE_TYPE_HEX
  {
    assert OccursAt(".hex", "a.cmd.hex", 5);
    OccursIff(".hex", "a.cmd.hex");
  }

  // ---------------------------------------------------------------------------
  // streamReadLine

  /** The loop of `streamReadLine` from some point on: `special` is whether
      the previous byte was an escaping backslash, `line` what has been stored
      so far and `limit` the decremented `size`.  Returns the stored line and
      the read index where the loop stopped. */
  function ReadLineFrom(input: seq<byte>, pos: nat, limit: nat, escaped: bool,
                        special: bool, line: seq<byte>): (r: (seq<byte>, nat))
    requires pos <= |input| && |line| < limit
    ensures pos <= r.1 <= |input| && |line| <= |r.0| <= limit
    decreases |input| - pos
  {
    if pos == |input| then (line, pos)
    else
      var c0 := input[pos];
      if escaped && !special && c0 == BACKSLASH then
        ReadLineFrom(input, pos + 1, limit, escaped, true, line)
      else
        var c := if escaped && special && c0 == 'n' then LF else c0;
        if c == CR then ReadLineFrom(input, pos + 1, limit, escaped, false, line)
        else if |line| + 1 >= limit || c == LF then (line + [c], pos + 1)
        else ReadLineFrom(input, pos + 1, limit, escaped, false, line + [c])
  }

  /** `streamReadLine(handle, buf, size, escaped_characters)` as a function of
      the source: the line it stores (without the NUL) and where it stops. */
  function ReadLine(input: seq<byte>, pos: nat, size: nat, escaped: bool): (r: (seq<byte>, nat))
    requires pos <= |input| && size >= 2
    ensures pos <= r.1 <= |input| && |r.0| <= size - 1
  {
    ReadLineFrom(input, pos, size - 1, escaped, false, [])
  }

  /** The byte an escaping backslash turns `c` into. */
  function Escaped(c: byte): byte
  {
    if c == 'n' then LF else c
  }

  /** Reference decoding of backslash escapes over a whole byte string: a
      backslash and the byte after it stand for `Escaped` of that byte; a
      backslash with nothing after it stands for nothing. */
  function Unescape(s: seq<byte>): seq<byte>
  {
    if s == [] then []
    else if s[0] == BACKSLASH then
      (if |s| == 1 then [] else [Escaped(s[1])] + Unescape(s[2..]))
    else [s[0]] + Unescape(s[1..])
  }

  /** What the consumed bytes decode to, given the escaping mode and whether
      a backslash is pending from before them. */
  function Decoded(escaped: bool, special: bool, s: seq<byte>): seq<byte>
  {
    if !escaped then s
    else if special then (if s == [] then [] else [Escaped(s[0])] + Unescape(s[1..]))
    else Unescape(s)
  }

  /** Decoding the consumed bytes one byte at a time, as the loop does. */
  lemma DecodedStep(escaped: bool, special: bool, c0: byte, rest: seq<byte>)
    requires escaped || !special
    ensures escaped && !special && c0 == BACKSLASH ==>
      Decoded(escaped, special, [c0] + rest) == Decoded(escaped, true, rest)
    ensures !(escaped && !special && c0 == BACKSLASH) ==>
      Decoded(escaped, special, [c0] + rest) ==
        [if escaped && special && c0 == 'n' then LF else c0] + Decoded(escaped, false, rest)
  {
    var s := [c0] + rest;
    assert s[1..] == rest;
    if |rest| > 0 {
      assert s[2..] == rest[1..];
    }
  }

  /** The shape of a line: bounded, free of carriage returns, a newline only
      at its end, and the loop stops early only after a newline or at the limit. */
  lemma {:induction false} ReadLineFromShape(input: seq<byte>, pos: nat, limit: nat, escaped: bool,
                                             special: bool, line: seq<byte>)
    requires pos <= |input| && |line| < limit
    requires CR !in line && LF !in line
    ensures var r := ReadLineFrom(input, pos, limit, escaped, special, line);
      pos <= r.1 <= |input| &&
      |line| <= |r.0| <= limit && CR !in r.0 &&
      (forall i :: 0 <= i < |r.0| - 1 ==> r.0[i] != LF) &&
      (r.1 < |input| ==> |r.0| > 0 && (r.0[|r.0| - 1] == LF || |r.0| == limit))
    decreases |input| - pos
  {
    if pos < |input| {
      var c0 := input[pos];
      if escaped && !special && c0 == BACKSLASH {
        ReadLineFromShape(input, pos + 1, limit, escaped, true, line);
      } else {
        var c := if escaped && special && c0 == 'n' then LF else c0;
        if c == CR {
          ReadLineFromShape(input, pos + 1, limit, escaped, false, line);
        } else if !(|line| + 1 >= limit || c == LF) {
          ReadLineFromShape(input, pos + 1, limit, escaped, false, line + [c]);
        }
      }
    }
  }

  /** The content of a line: the consumed bytes, decoded, without carriage
      returns. */
  lemma {:induction false} ReadLineFromContent(input: seq<byte>, pos: nat, limit: nat, escaped: bool,
                                               special: bool, line: seq<byte>)
    requires pos <= |input| && |line| < limit && (escaped || !special)
    ensures var r := ReadLineFrom(input, pos, limit, escaped, special, line);
      pos <= r.1 <= |input| &&
      r.0 == line + RemoveCR(Decoded(escaped, special, input[pos..r.1]))
    decreases |input| - pos
  {
    var r := ReadLineFrom(input, pos, limit, escaped, special, line);
    if pos < |input| {
      var c0 := input[pos];
      if escaped && !special && c0 == BACKSLASH {
        ReadLineFromContent(input, pos + 1, limit, escaped, true, line);
      } else {
        var c := if escaped && special && c0 == 'n' then LF else c0;
        if c == CR {
          ReadLineFromContent(input, pos + 1, limit, escaped, false, line);
        } else if !(|line| + 1 >= limit || c == LF) {
          ReadLineFromContent(input, pos + 1, limit, escaped, false, line + [c]);
        }
        RemoveCRAppend([c], Decoded(escaped, false, input[pos + 1..r.1]));
      }
      assert pos < r.1;
      SliceHead(input, pos, r.1);
      DecodedStep(escaped, special, c0, input[pos + 1..r.1]);
    }
  }

  /** The loop stops right after the byte that ends a line: when the line
      ends in a newline or fills the limit, everything read before that last
      byte decodes to the rest of the line, so nothing after it (a carriage
      return, a lone backslash) was consumed. */
  lemma {:induction false} ReadLineFromStop(input: seq<byte>, pos: nat, limit: nat, escaped: bool,
                                            special: bool, line: seq<byte>)
    requires pos <= |input| && |line| < limit && (escaped || !special)
    requires LF !in line
    ensures var r := ReadLineFrom(input, pos, limit, escaped, special, line);
      StopsAfterLast(input, pos, limit, escaped, special, line, r.0, r.1)
    decreases |input| - pos
  {
    if pos == |input| {
      if |line| > 0 {
        assert line[|line| - 1] in line;
      }
    } else {
      var c0 := input[pos];
      var c := if escaped && special && c0 == 'n' then LF else c0;
      var skip := escaped && !special && c0 == BACKSLASH;
      if skip {
        var r := ReadLineFrom(input, pos + 1, limit, escaped, true, line);
        ReadLineFromNext(input, pos, limit, escaped, special, line, true, line);
        ReadLineFromStop(input, pos + 1, limit, escaped, true, line);
        ReadLineEscapeLift(input, pos, limit, line, r.0, r.1);
      } else if c == CR || !(|line| + 1 >= limit || c == LF) {
        var line' := if c == CR then line else line + [c];
        var r := ReadLineFrom(input, pos + 1, limit, escaped, false, line');
        ReadLineFromNext(input, pos, limit, escaped, special, line, false, line');
        ReadLineFromStop(input, pos + 1, limit, escaped, false, line');
        ReadLineByteLift(input, pos, limit, escaped, special, c, line, line', r.0, r.1);
      } else {
        ReadLineStopHere(input, pos, limit, escaped, special, line, c);
      }
    }
  }

  /** One turn of the loop that neither stores the last byte nor stops:
      `special'` and `line'` are the state it goes on with. */
  lemma ReadLineFromNext(input: seq<byte>, pos: nat, limit: nat, escaped: bool, special: bool,
                         line: seq<byte>, special': bool, line': seq<byte>)
    requires pos < |input| && |line| < limit && |line'| < limit
    requires var c0 := input[pos]; var skip := escaped && !special && c0 == BACKSLASH;
      var c := if escaped && special && c0 == 'n' then LF else c0;
      special' == skip &&
      (if skip || c == CR then line' == line else line' == line + [c] && c != LF)
    ensures ReadLineFrom(input, pos, limit, escaped, special, line) ==
            ReadLineFrom(input, pos + 1, limit, escaped, special', line')
  {
  }

  /** The turn that stores the byte ending the line, a newline or the byte
      that fills the limit, and stops right after it. */
  lemma ReadLineStopHere(input: seq<byte>, pos: nat, limit: nat, escaped: bool, special: bool,
                         line: seq<byte>, c: byte)
    requires pos < |input| && |line| < limit
    requires !(escaped && !special && input[pos] == BACKSLASH)
    requires c == (if escaped && special && input[pos] == 'n' then LF else input[pos])
    requires c != CR && (|line| + 1 >= limit || c == LF)
    ensures ReadLineFrom(input, pos, limit, escaped, special, line) == (line + [c], pos + 1)
    ensures StopsAfterLast(input, pos, limit, escaped, special, line, line + [c], pos + 1)
  {
    assert input[pos..pos] == [];
    assert (line + [c])[..|line|] == line;
  }

  /** When the loop from `pos` with `special` and `line` has stored `out` and
      stopped at `p`, and `out` ends the line, the bytes before `p - 1`
      decode to the rest of `out`. */
  predicate StopsAfterLast(input: seq<byte>, pos: nat, limit: nat, escaped: bool, special: bool,
                           line: seq<byte>, out: seq<byte>, p: nat)
    requires pos <= p <= |input|
  {
    |out| > 0 && (out[|out| - 1] == LF || |out| == limit) ==>
      pos < p && out[..|out| - 1] == line + RemoveCR(Decoded(escaped, special, input[pos..p - 1]))
  }

  /** `StopsAfterLast` carries back over an escaping backslash. */
  lemma ReadLineEscapeLift(input: seq<byte>, pos: nat, limit: nat, line: seq<byte>, out: seq<byte>, p: nat)
    requires pos < p <= |input| && input[pos] == BACKSLASH
    requires StopsAfterLast(input, pos + 1, limit, true, true, line, out, p)
    ensures StopsAfterLast(input, pos, limit, true, false, line, out, p)
  {
    if |out| > 0 && (out[|out| - 1] == LF || |out| == limit) {
      ReadLineEscapeStep(input, pos, p - 1, line);
    }
  }

  /** `StopsAfterLast` carries back over any other byte the loop reads and
      goes on from, which decodes to `c`; `line'` is what the loop goes on
      with. */
  lemma ReadLineByteLift(input: seq<byte>, pos: nat, limit: nat, escaped: bool, special: bool, c: byte,
                         line: seq<byte>, line': seq<byte>, out: seq<byte>, p: nat)
    requires pos < p <= |input| && (escaped || !special)
    requires !(escaped && !special && input[pos] == BACKSLASH)
    requires c == if escaped && special && input[pos] == 'n' then LF else input[pos]
    requires line' == if c == CR then line else line + [c]
    requires StopsAfterLast(input, pos + 1, limit, escaped, false, line', out, p)
    ensures StopsAfterLast(input, pos, limit, escaped, special, line, out, p)
  {
    if |out| > 0 && (out[|out| - 1] == LF || |out| == limit) {
      ReadLineByteStep(input, pos, p - 1, escaped, special, c, line, line');
    }
  }

  /** An escaping backslash adds nothing by itself. */
  lemma ReadLineEscapeStep(input: seq<byte>, pos: nat, q: nat, line: seq<byte>)
    requires pos < q <= |input| && input[pos] == BACKSLASH
    ensures line + RemoveCR(Decoded(true, true, input[pos + 1..q])) ==
            line + RemoveCR(Decoded(true, false, input[pos..q]))
  {
    SliceHead(input, pos, q);
    DecodedStep(true, false, input[pos], input[pos + 1..q]);
  }

  /** Any other byte decodes to `c`, which a carriage return drops and
      everything else appends. */
  lemma ReadLineByteStep(input: seq<byte>, pos: nat, q: nat, escaped: bool, special: bool, c: byte,
                         line: seq<byte>, line': seq<byte>)
    requires pos < q <= |input| && (escaped || !special)
    requires !(escaped && !special && input[pos] == BACKSLASH)
    requires c == if escaped && special && input[pos] == 'n' then LF else input[pos]
    requires line' == if c == CR then line else line + [c]
    ensures line' + RemoveCR(Decoded(escaped, false, input[pos + 1..q])) ==
            line + RemoveCR(Decoded(escaped, special, input[pos..q]))
  {
    SliceHead(input, pos, q);
    DecodedStep(escaped, special, input[pos], input[pos + 1..q]);
    RemoveCRAppend([c], Decoded(escaped, false, input[pos + 1..q]));
    assert line' + RemoveCR(Decoded(escaped, false, input[pos + 1..q])) ==
           line + (RemoveCR([c]) + RemoveCR(Decoded(escaped, false, input[pos + 1..q])));
  }

  lemma SliceHead(s: seq<byte>, i: nat, j: nat)
    requires i < j <= |s|
    ensures s[i..j] == [s[i]] + s[i + 1..j]
  {
  }

  /** What `streamReadLine` promises: at most `size - 1` bytes, never a
      carriage return, a newline only as the last byte, and it stops early only
      after a newline or at the limit, right after the byte that ended the
      line; the stored bytes are exactly the consumed bytes without carriage
      returns, after escape decoding when it is on. */
  lemma ReadLineSpec(input: seq<byte>, pos: nat, size: nat, escaped: bool)
    requires pos <= |input| && size >= 2
    ensures var (l, p) := ReadLine(input, pos, size, escaped);
      pos <= p <= |input| && |l| <= size - 1 && CR !in l &&
      (forall i :: 0 <= i < |l| - 1 ==> l[i] != LF) &&
      (p < |input| ==> |l| > 0 && (l[|l| - 1] == LF || |l| == size - 1)) &&
      (!escaped ==> l == RemoveCR(input[pos..p])) &&
      (escaped ==> l == RemoveCR(Unescape(input[pos..p]))) &&
      (|l| > 0 && (l[|l| - 1] == LF || |l| == size - 1) ==>
        pos < p &&
        (!escaped ==> l[..|l| - 1] == RemoveCR(input[pos..p - 1])) &&
        (escaped ==> l[..|l| - 1] == RemoveCR(Unescape(input[pos..p - 1]))))
  {
    ReadLineFromShape(input, pos, size - 1, escaped, false, []);
    ReadLineFromContent(input, pos, size - 1, escaped, false, []);
    ReadLineStops(input, pos, size, escaped);
  }

  /** `streamReadLine` stops right after the byte that ends a line. */
  lemma ReadLineStops(input: seq<byte>, pos: nat, size: nat, escaped: bool)
    requires pos <= |input| && size >= 2
    ensures var (l, p) := ReadLine(input, pos, size, escaped);
      pos <= p <= |input| &&
      (|l| > 0 && (l[|l| - 1] == LF || |l| == size - 1) ==>
        pos < p &&
        (!escaped ==> l[..|l| - 1] == RemoveCR(input[pos..p - 1])) &&
        (escaped ==> l[..|l| - 1] == RemoveCR(Unescape(input[pos..p - 1]))))
  {
    ReadLineFromStop(input, pos, size - 1, escaped, false, []);
  }

  /** Each stored byte costs at least one consumed byte. */
  lemma {:induction false} ReadLineConsumes(input: seq<byte>, pos: nat, limit: nat, escaped: bool,
                                            special: bool, line: seq<byte>)
    requires pos <= |input| && |line| < limit
    ensures var (l, p) := ReadLineFrom(input, pos, limit, escaped, special, line);
      pos <= p && |l| - |line| <= p - pos
    decreases |input| - pos
  {
    if pos < |input| {
      var c0 := input[pos];
      if escaped && !special && c0 == BACKSLASH {
        ReadLineConsumes(input, pos + 1, limit, escaped, true, line);
      } else {
        var c := if escaped && special && c0 == 'n' then LF else c0;
        if c == CR {
          ReadLineConsumes(input, pos + 1, limit, escaped, false, line);
        } else if !(|line| + 1 >= limit || c == LF) {
          ReadLineConsumes(input, pos + 1, limit, escaped, false, line + [c]);
        }
      }
    }
  }

  /** `streamReadLine` itself, filling the caller's buffer from the source at
      `pos0`; `size` is the buffer size the caller passes (at least 2, since the
      C code decrements it and then writes `buf[len]`). */
  method StreamReadLine(input: seq<byte>, pos0: nat, buf: array<byte>, size: nat, escaped: bool)
    returns (len: nat, pos: nat)
    requires pos0 <= |input| && 2 <= size <= buf.Length
    modifies buf
    ensures len < size && buf[len] == NUL
    ensures (buf[..len], pos) == ReadLine(input, pos0, size, escaped)
    ensures forall j :: len < j < buf.Length ==> buf[j] == old(buf[j])
  {
    var limit := size - 1;
    len := 0;
    pos := pos0;
    var special := false;
    while pos < |input|
      invariant pos0 <= pos <= |input| && len < limit
      invariant escaped || !special
      invariant ReadLineFrom(input, pos, limit, escaped, special, buf[..len]) == ReadLine(input, pos0, size, escaped)
      invariant forall j :: len <= j < buf.Length ==> buf[j] == old(buf[j])
      decreases |input| - pos
    {
      var c := input[pos];
      pos := pos + 1;
      if escaped {
        if special {
          if c == 'n' {
            c := LF;
          }
          special := false;
        } else if c == BACKSLASH {
          special := true;
          continue;
        }
      }
      if c == CR {
        continue;
      }
      ghost var prior := buf[..len];
      buf[len] := c;
      len := len + 1;
      assert buf[..len] == prior + [c];
      if len >= limit {
        break;
      }
      if c == LF {
        break;
      }
    }
    buf[len] := NUL;
  }
}
