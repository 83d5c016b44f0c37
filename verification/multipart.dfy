/** `parseMultipartFormData` of `converter-lambda/index.mjs`: the boundary
    is read from the content type, the body is cut at each occurrence of
    `--boundary`, and every segment with a header block and a `name="..."`
    becomes a part; parts with a `filename="..."` keep their raw bytes,
    the others are decoded to text.

    Header and text bytes are decoded as UTF-8, and the boundary is
    encoded as UTF-8. */
module Multipart {
  import opened Common

  // ------------------------------------------------------------ strings

  function StartsWith<T(==)>(s: seq<T>, p: seq<T>): bool {
    |p| <= |s| && s[..|p|] == p
  }

  // -------------------------------------------------------------- UTF-8

  /** The replacement character U+FFFD that decoding puts in place of a
      malformed sequence. */
  const REPLACEMENT: char := 0xFFFD as char

  /** A continuation byte, `10xxxxxx`. */
  predicate Continuation(x: byte) {
    0x80 <= x <= 0xBF
  }

  /** `Buffer.from(text)`: UTF-8, one to four bytes per character. */
  function EncodeChar(c: char): (b: Bytes)
    ensures 1 <= |b| <= 4
  {
    var v := c as int;
    if v < 0x80 then [v as byte]
    else if v < 0x800 then [(0xC0 + v / 64) as byte, (0x80 + v % 64) as byte]
    else if v < 0x10000 then [(0xE0 + v / 4096) as byte, (0x80 + v / 64 % 64) as byte, (0x80 + v % 64) as byte]
    else [(0xF0 + v / 262144) as byte, (0x80 + v / 4096 % 64) as byte, (0x80 + v / 64 % 64) as byte, (0x80 + v % 64) as byte]
  }

  /** Text written as UTF-8 bytes. */
  function Encode(s: string): (b: Bytes)
    ensures |s| <= |b| <= 4 * |s|
  {
    if s == [] then [] else EncodeChar(s[0]) + Encode(s[1..])
  }

  /** How many continuation bytes a lead byte announces (0 for ASCII and
      for a byte that cannot start a sequence), and the range the first of
      them must lie in, which rules out overlong forms, surrogates and
      values above U+10FFFF. */
  function Needed(b0: byte): nat {
    if 0xC2 <= b0 <= 0xDF then 1 else if 0xE0 <= b0 <= 0xEF then 2 else if 0xF0 <= b0 <= 0xF4 then 3 else 0
  }

  function FirstLower(b0: byte): byte {
    if b0 == 0xE0 then 0xA0 else if b0 == 0xF0 then 0x90 else 0x80
  }

  function FirstUpper(b0: byte): byte {
    if b0 == 0xED then 0x9F else if b0 == 0xF4 then 0x8F else 0xBF
  }

  /** The number of acceptable continuation bytes after the lead byte
      `b[0]`, up to the number it announces. */
  function ValidTail(b: Bytes): (m: nat)
    requires b != []
    ensures m <= Needed(b[0]) && m < |b|
  {
    var need := Needed(b[0]);
    if need == 0 || |b| < 2 || !(FirstLower(b[0]) <= b[1] <= FirstUpper(b[0])) then 0
    else if need == 1 || |b| < 3 || !Continuation(b[2]) then 1
    else if need == 2 || |b| < 4 || !Continuation(b[3]) then 2
    else 3
  }

  /** The first character of `b` and the bytes it takes: a complete
      sequence gives its scalar value; an ASCII byte gives itself; a
      malformed or truncated sequence gives U+FFFD for its lead byte and
      the acceptable continuation bytes after it (the maximal subpart). */
  function DecodeFirst(b: Bytes): (r: (char, nat))
    requires b != []
    ensures 1 <= r.1 <= |b| && r.1 <= 4
  {
    var b0 := b[0] as int;
    var need := Needed(b[0]);
    var m := ValidTail(b);
    if b0 < 0x80 then (b0 as char, 1)
    else if need == 0 || m < need then (REPLACEMENT, 1 + m)
    else if need == 1 then (((b0 - 0xC0) * 64 + (b[1] as int - 0x80)) as char, 2)
    else if need == 2 then
      (((b0 - 0xE0) * 4096 + (b[1] as int - 0x80) * 64 + (b[2] as int - 0x80)) as char, 3)
    else
      (((b0 - 0xF0) * 262144 + (b[1] as int - 0x80) * 4096 + (b[2] as int - 0x80) * 64 + (b[3] as int - 0x80)) as char, 4)
  }

  /** `buffer.toString()`: bytes read as UTF-8, each malformed sequence
      replaced by U+FFFD. */
  function Decode(b: Bytes): (s: string)
    ensures |s| <= |b|
    decreases |b|, 1
  {
    if b == [] then [] else DecodeNext(b)
  }

  /** The first character of a non-empty `b`, then the decoding of the
      bytes after it. */
  function DecodeNext(b: Bytes): (s: string)
    requires b != []
    ensures |s| <= |b|
    decreases |b|, 0
  {
    var (c, n) := DecodeFirst(b);
    [c] + Decode(b[n..])
  }

  lemma DivMod64(q: int, r: int)
    requires 0 <= r < 64
    ensures (q * 64 + r) / 64 == q && (q * 64 + r) % 64 == r
  {
  }

  lemma DivMod4096(q: int, r: int)
    requires 0 <= r < 4096
    ensures (q * 4096 + r) / 4096 == q
  {
  }

  lemma DivMod262144(q: int, r: int)
    requires 0 <= r < 262144
    ensures (q * 262144 + r) / 262144 == q
  {
  }

  /** The value of a two-, three- or four-byte sequence, from its lead
      byte's payload and its continuation bytes' payloads. */
  function Value2(b0: int, b1: int): int { (b0 - 0xC0) * 64 + (b1 - 0x80) }
  function Value3(b0: int, b1: int, b2: int): int { (b0 - 0xE0) * 4096 + (b1 - 0x80) * 64 + (b2 - 0x80) }
  function Value4(b0: int, b1: int, b2: int, b3: int): int {
    (b0 - 0xF0) * 262144 + (b1 - 0x80) * 4096 + (b2 - 0x80) * 64 + (b3 - 0x80)
  }

  lemma DecodeFirstLength(b: Bytes)
    requires b != []
    ensures var (c, n) := DecodeFirst(b);
      && (n == 1 ==> c == REPLACEMENT || b[0] < 0x80)
      && (n == 2 && c != REPLACEMENT ==> 0xC2 <= b[0] <= 0xDF && Continuation(b[1]) && c as int == Value2(b[0] as int, b[1] as int))
      && (n == 3 && c != REPLACEMENT ==> 0xE0 <= b[0] <= 0xEF && FirstLower(b[0]) <= b[1] <= FirstUpper(b[0]) && Continuation(b[2])
                                         && c as int == Value3(b[0] as int, b[1] as int, b[2] as int))
      && (n == 4 ==> 0xF0 <= b[0] <= 0xF4 && FirstLower(b[0]) <= b[1] <= FirstUpper(b[0]) && Continuation(b[2]) && Continuation(b[3])
                     && c as int == Value4(b[0] as int, b[1] as int, b[2] as int, b[3] as int))
  {
  }

  lemma EncodedTwo(c: char)
    requires 0x80 <= c as int < 0x800
    ensures var e := EncodeChar(c);
      && |e| == 2 && 0xC2 <= e[0] <= 0xDF && Continuation(e[1])
      && Value2(e[0] as int, e[1] as int) == c as int
  {
  }

  lemma EncodedThree(c: char)
    requires 0x800 <= c as int < 0x10000
    ensures var e := EncodeChar(c);
      && |e| == 3 && 0xE0 <= e[0] <= 0xEF && FirstLower(e[0]) <= e[1] <= FirstUpper(e[0])
      && Continuation(e[2]) && Value3(e[0] as int, e[1] as int, e[2] as int) == c as int
  {
    var v := c as int;
    assert v / 64 == v / 4096 * 64 + v / 64 % 64;
  }

  lemma EncodedFour(c: char)
    requires 0x10000 <= c as int
    ensures var e := EncodeChar(c);
      && |e| == 4 && 0xF0 <= e[0] <= 0xF4 && FirstLower(e[0]) <= e[1] <= FirstUpper(e[0])
      && Continuation(e[2]) && Continuation(e[3]) && Value4(e[0] as int, e[1] as int, e[2] as int, e[3] as int) == c as int
  {
    var v := c as int;
    assert v / 64 == v / 4096 * 64 + v / 64 % 64;
    assert v / 4096 == v / 262144 * 64 + v / 4096 % 64;
  }

  /** Decoding reads one character's encoding back as that character and
      takes exactly its bytes, whatever follows. */
  lemma DecodeFirstEncoded(c: char, rest: Bytes)
    ensures DecodeFirst(EncodeChar(c) + rest) == (c, |EncodeChar(c)|)
  {
    var e := EncodeChar(c);
    var b := e + rest;
    var v := c as int;
    if v < 0x80 {
    } else if v < 0x800 {
      EncodedTwo(c);
      assert b[0] == e[0] && b[1] == e[1];
    } else if v < 0x10000 {
      EncodedThree(c);
      assert b[0] == e[0] && b[1] == e[1] && b[2] == e[2];
    } else {
      EncodedFour(c);
      assert b[0] == e[0] && b[1] == e[1] && b[2] == e[2] && b[3] == e[3];
    }
  }

  lemma CompleteTwo(c: char, b0: byte, b1: byte)
    requires 0xC2 <= b0 <= 0xDF && Continuation(b1) && c as int == Value2(b0 as int, b1 as int)
    ensures EncodeChar(c) == [b0, b1]
  {
    DivMod64(b0 as int - 0xC0, b1 as int - 0x80);
  }

  lemma CompleteThree(c: char, b0: byte, b1: byte, b2: byte)
    requires 0xE0 <= b0 <= 0xEF && FirstLower(b0) <= b1 <= FirstUpper(b0) && Continuation(b2)
    requires c as int == Value3(b0 as int, b1 as int, b2 as int)
    ensures EncodeChar(c) == [b0, b1, b2]
  {
    var x, y, z := b0 as int - 0xE0, b1 as int - 0x80, b2 as int - 0x80;
    DivMod64(x * 64 + y, z);
    DivMod64(x, y);
    DivMod4096(x, y * 64 + z);
  }

  lemma CompleteFour(c: char, b0: byte, b1: byte, b2: byte, b3: byte)
    requires 0xF0 <= b0 <= 0xF4 && FirstLower(b0) <= b1 <= FirstUpper(b0) && Continuation(b2) && Continuation(b3)
    requires c as int == Value4(b0 as int, b1 as int, b2 as int, b3 as int)
    ensures EncodeChar(c) == [b0, b1, b2, b3]
  {
    var w, x, y, z := b0 as int - 0xF0, b1 as int - 0x80, b2 as int - 0x80, b3 as int - 0x80;
    DivMod64(w * 4096 + x * 64 + y, z);
    DivMod64(w * 64 + x, y);
    DivMod4096(w * 64 + x, y * 64 + z);
    DivMod64(w, x);
    DivMod262144(w, x * 4096 + y * 64 + z);
  }

  /** A complete sequence is the encoding of the character it decodes
      to: only a malformed one is read as U+FFFD without being its
      encoding. */
  lemma DecodeFirstComplete(b: Bytes)
    requires b != [] && DecodeFirst(b).0 != REPLACEMENT
    ensures b[..DecodeFirst(b).1] == EncodeChar(DecodeFirst(b).0)
  {
    var (c, n) := DecodeFirst(b);
    DecodeFirstLength(b);
    if n == 1 {
      assert b[..1] == [b[0]];
    } else if n == 2 {
      CompleteTwo(c, b[0], b[1]);
      assert b[..2] == [b[0], b[1]];
    } else if n == 3 {
      CompleteThree(c, b[0], b[1], b[2]);
      assert b[..3] == [b[0], b[1], b[2]];
    } else {
      CompleteFour(c, b[0], b[1], b[2], b[3]);
      assert b[..4] == [b[0], b[1], b[2], b[3]];
    }
  }

  /** Text written as UTF-8 reads back as the same text. */
  lemma {:induction false} DecodeEncode(s: string)
    ensures Decode(Encode(s)) == s
  {
    if s != [] {
      var e := EncodeChar(s[0]);
      DecodeFirstEncoded(s[0], Encode(s[1..]));
      assert (e + Encode(s[1..]))[|e|..] == Encode(s[1..]);
      DecodeEncode(s[1..]);
    }
  }

  /** Bytes that decode without a replacement character are well-formed
      UTF-8: writing the text back gives the same bytes. */
  lemma {:induction false} EncodeDecode(b: Bytes)
    requires REPLACEMENT !in Decode(b)
    ensures Encode(Decode(b)) == b
    decreases |b|
  {
    if b != [] {
      var n := DecodeFirst(b).1;
      DecodeStep(b);
      DecodeFirstComplete(b);
      EncodeDecode(b[n..]);
      EncodeCons(b, n, DecodeFirst(b).0, Decode(b[n..]));
    }
  }

  /** Putting one decoding step back together. */
  lemma EncodeCons(b: Bytes, n: nat, c: char, rest: string)
    requires n <= |b| && b[..n] == EncodeChar(c) && Encode(rest) == b[n..]
    ensures Encode([c] + rest) == b
  {
    EncodeFirst(c, rest);
    assert b == b[..n] + b[n..];
  }

  lemma EncodeFirst(c: char, rest: string)
    ensures Encode([c] + rest) == EncodeChar(c) + Encode(rest)
  {
    assert ([c] + rest)[0] == c && ([c] + rest)[1..] == rest;
  }

  /** Text written as bytes keeps its pieces apart. */
  lemma {:induction false} EncodeAppend(s: string, t: string)
    ensures Encode(s + t) == Encode(s) + Encode(t)
  {
    if s == [] {
      assert s + t == t;
    } else {
      assert (s + t)[0] == s[0] && (s + t)[1..] == s[1..] + t;
      EncodeAppend(s[1..], t);
    }
  }

  /** ASCII text is written one byte per character, each byte the
      character's code. */
  lemma {:induction false} AsciiOneByteEach(s: string)
    requires forall i :: 0 <= i < |s| ==> s[i] < 0x80 as char
    ensures |Encode(s)| == |s| && forall i :: 0 <= i < |s| ==> Encode(s)[i] as int == s[i] as int
  {
    if s != [] {
      AsciiOneByteEach(s[1..]);
      assert forall i :: 1 <= i < |s| ==> Encode(s)[i] == Encode(s[1..])[i - 1];
    }
  }

  /** Decoding takes the first character off the front. */
  lemma DecodeStep(b: Bytes)
    requires b != []
    ensures Decode(b) == [DecodeFirst(b).0] + Decode(b[DecodeFirst(b).1..])
  {
  }

  /** A no-break space (bytes C2 A0) after "pdf" decodes to that one
      character. */
  lemma DecodeNoBreakSpace()
    ensures Decode([0x70, 0x64, 0x66, 0xC2, 0xA0]) == "pdf" + [0xA0 as char]
  {
    var b: Bytes := [0x70, 0x64, 0x66, 0xC2, 0xA0];
    DecodeStep(b);
    DecodeStep(b[1..]);
    DecodeStep(b[2..]);
    DecodeStep(b[3..]);
    assert DecodeFirst(b[3..]) == (0xA0 as char, 2);
    assert b[3..][2..] == [];
  }

  /** A continuation byte without its lead byte decodes to U+FFFD. */
  lemma DecodeStrayContinuation()
    ensures Decode([0x70, 0x64, 0x66, 0xA0]) == "pdf" + [REPLACEMENT]
  {
    var b: Bytes := [0x70, 0x64, 0x66, 0xA0];
    DecodeStep(b);
    DecodeStep(b[1..]);
    DecodeStep(b[2..]);
    DecodeStep(b[3..]);
    assert b[3..][1..] == [];
  }

  /** Index of the first `c` in `s`, if any. */
  function IndexOfChar(s: string, c: char): (r: Option<nat>)
    ensures r.Some? ==> r.value < |s| && s[r.value] == c
  {
    if s == [] then None
    else if s[0] == c then Some(0)
    else match IndexOfChar(s[1..], c)
      case None => None
      case Some(k) => Some(k + 1)
  }

  lemma {:induction false} IndexOfCharSpec(s: string, c: char)
    ensures IndexOfChar(s, c).None? ==> c !in s
    ensures IndexOfChar(s, c).Some? ==> c !in s[..IndexOfChar(s, c).value]
  {
    if s != [] && s[0] != c {
      IndexOfCharSpec(s[1..], c);
      assert s == [s[0]] + s[1..];
      match IndexOfChar(s[1..], c)
      case None =>
      case Some(k) =>
        assert s[..k + 1] == [s[0]] + s[1..][..k];
    }
  }

  lemma {:induction false} IndexOfCharFirst(s: string, c: char, k: nat)
    requires k < |s| && s[k] == c && c !in s[..k]
    ensures IndexOfChar(s, c) == Some(k)
  {
    if k > 0 {
      assert s[1..][..k - 1] == s[1..k];
      assert s[1..][k - 1] == s[k];
      IndexOfCharFirst(s[1..], c, k - 1);
    }
  }

  /** The longest prefix without `c`. */
  function TakeUntil(s: string, c: char): string {
    match IndexOfChar(s, c)
    case None => s
    case Some(k) => s[..k]
  }

  // ------------------------------------------------------------ boundary

  /** How `/boundary=(?:"([^"]+)"|([^;]+))/` matches text right after a
      `boundary=`: a quoted non-empty value without quotes, or else a
      non-empty run of characters up to the first `;`. */
  function BoundaryValue(rest: string): Option<string> {
    var quoted :=
      if |rest| >= 1 && rest[0] == '"' then
        match IndexOfChar(rest[1..], '"')
        case Some(k) => if k >= 1 then Some(rest[1..k + 1]) else None
        case None => None
      else None;
    if quoted.Some? then quoted
    else if rest != [] && rest[0] != ';' then Some(TakeUntil(rest, ';'))
    else None
  }

  /** The boundary regex searched from position i of the content type: the
      leftmost `boundary=` where the pattern matches. */
  function BoundaryFrom(contentType: string, i: nat): Option<string>
    decreases |contentType| - i
  {
    if i >= |contentType| then None
    else if StartsWith(contentType[i..], "boundary=") && BoundaryValue(contentType[i + 9..]).Some? then
      BoundaryValue(contentType[i + 9..])
    else BoundaryFrom(contentType, i + 1)
  }

  function Boundary(contentType: string): Option<string> {
    BoundaryFrom(contentType, 0)
  }

  /** A boundary value is never empty; it holds no `;` unless quoted, and
      no quote when quoted. */
  lemma BoundaryValueSpec(rest: string)
    ensures var v := BoundaryValue(rest);
      && (v.None? <==> rest == [] || rest[0] == ';')
      && (v.Some? ==> v.value != [] && (('"' !in v.value && StartsWith(rest, ['"'] + v.value + ['"'])) || (';' !in v.value && StartsWith(rest, v.value))))
  {
    IndexOfCharSpec(rest, ';');
    if |rest| >= 1 && rest[0] == '"' {
      IndexOfCharSpec(rest[1..], '"');
      match IndexOfChar(rest[1..], '"')
      case Some(k) =>
        if k >= 1 {
          QuotedPrefix(rest, k);
        }
      case None =>
    }
    match IndexOfChar(rest, ';')
    case None =>
    case Some(k) =>
  }

  /** Text whose first and `k + 1`st characters are quotes starts with
      the quoted text between them. */
  lemma QuotedPrefix(rest: string, k: nat)
    requires k + 2 <= |rest| && rest[0] == '"' && rest[1..][k] == '"'
    ensures StartsWith(rest, ['"'] + rest[1..k + 1] + ['"'])
  {
    var p := ['"'] + rest[1..k + 1] + ['"'];
    assert |p| == k + 2;
    forall j | 0 <= j < k + 2 ensures rest[j] == p[j] {
      if 0 < j < k + 1 {
        assert p[j] == rest[1..k + 1][j - 1];
      }
    }
    assert rest[..k + 2] == p;
  }

  /** There is no boundary exactly when no `boundary=` in the content type
      is followed by a character other than `;`. */
  lemma {:induction false} BoundaryNone(contentType: string, i: nat)
    ensures BoundaryFrom(contentType, i).None? <==>
      forall k :: i <= k < |contentType| && StartsWith(contentType[k..], "boundary=") ==>
        k + 9 == |contentType| || contentType[k + 9] == ';'
    decreases |contentType| - i
  {
    if i < |contentType| {
      BoundaryNone(contentType, i + 1);
      if StartsWith(contentType[i..], "boundary=") {
        BoundaryValueSpec(contentType[i + 9..]);
      }
    }
  }

  /** The search passes over text holding no `b`. */
  lemma {:induction false} BoundaryFromSkip(contentType: string, i: nat, j: nat)
    requires i <= j <= |contentType|
    requires forall k :: i <= k < j ==> contentType[k] != 'b'
    ensures BoundaryFrom(contentType, i) == BoundaryFrom(contentType, j)
    decreases j - i
  {
    if i < j {
      assert "boundary="[0] == 'b';
      if |contentType[i..]| >= 9 {
        assert contentType[i..][..9][0] == contentType[i];
      }
      BoundaryFromSkip(contentType, i + 1, j);
    }
  }

  /** Both spellings of the parameter are accepted: a quoted value, and a
      bare value ended by the end of the text or by a `;`. */
  lemma BoundaryValueForms(v: string, tail: string)
    requires v != [] && '"' !in v
    ensures BoundaryValue(['"'] + v + ['"'] + tail) == Some(v)
    ensures ';' !in v && (tail == [] || tail[0] == ';') ==> BoundaryValue(v + tail) == Some(v)
  {
    var quoted := ['"'] + v + ['"'] + tail;
    assert quoted[1..] == v + ['"'] + tail;
    IndexOfCharFirst(v + ['"'] + tail, '"', |v|);
    assert quoted[1..|v| + 1] == v;
    if ';' !in v && (tail == [] || tail[0] == ';') {
      assert (v + tail)[0] == v[0] && v[0] in v;
      if tail != [] {
        assert (v + tail)[..|v|] == v;
        IndexOfCharFirst(v + tail, ';', |v|);
      } else {
        assert v + tail == v;
        IndexOfCharSpec(v, ';');
      }
    }
  }

  // --------------------------------------------------------- byte search

  /** `buf.indexOf(pat, from)`: the first position at or after `from` where
      `pat` occurs, or -1. */
  function IndexOf(buf: Bytes, pat: Bytes, from: nat): (r: int)
    ensures r == -1 || (from <= r && r + |pat| <= |buf|)
    decreases |buf| - from
  {
    if from + |pat| > |buf| then -1
    else if MatchesFrom(buf, pat, from, 0) then from
    else IndexOf(buf, pat, from + 1)
  }

  /** `pat[i..]` lies in `buf` at `at + i`, compared byte by byte. */
  predicate MatchesFrom(buf: Bytes, pat: Bytes, at: nat, i: nat)
    requires at + |pat| <= |buf| && i <= |pat|
    decreases |pat| - i
  {
    i == |pat| || (buf[at + i] == pat[i] && MatchesFrom(buf, pat, at, i + 1))
  }

  lemma {:induction false} MatchesFromSpec(buf: Bytes, pat: Bytes, at: nat, i: nat)
    requires at + |pat| <= |buf| && i <= |pat|
    ensures MatchesFrom(buf, pat, at, i) <==> buf[at + i..at + |pat|] == pat[i..]
    decreases |pat| - i
  {
    if i < |pat| {
      MatchesFromSpec(buf, pat, at, i + 1);
      assert buf[at + i..at + |pat|] == [buf[at + i]] + buf[at + i + 1..at + |pat|];
      assert pat[i..] == [pat[i]] + pat[i + 1..];
    }
  }

  predicate OccursAt(buf: Bytes, pat: Bytes, k: nat) {
    k + |pat| <= |buf| && buf[k..k + |pat|] == pat
  }

  /** The search finds the first occurrence at or after `from`. */
  lemma {:induction false} IndexOfSpec(buf: Bytes, pat: Bytes, from: nat)
    ensures var r := IndexOf(buf, pat, from);
      && (r >= 0 ==> OccursAt(buf, pat, r))
      && (forall k :: from <= k && (r == -1 || k < r) ==> !OccursAt(buf, pat, k))
    decreases |buf| - from
  {
    if from + |pat| <= |buf| {
      MatchesFromSpec(buf, pat, from, 0);
      assert pat[0..] == pat;
      if !MatchesFrom(buf, pat, from, 0) {
        IndexOfSpec(buf, pat, from + 1);
      }
    }
  }

  // ---------------------------------------------------------------- parts

  datatype PartData = Binary(bytes: Bytes) | Text(text: string)

  datatype Part = Part(name: string, filename: Option<string>, data: PartData)

  /** `headers.match(/<key>"([^"]+)"/)` from position i: the leftmost place
      where `key"` is followed by a non-empty quote-free value and a quote. */
  function QuotedFrom(headers: string, key: string, i: nat): Option<string>
    decreases |headers| - i
  {
    if i >= |headers| then None
    else
      var rest := headers[i..];
      var v := if StartsWith(rest, key + "\"") then
                 match IndexOfChar(rest[|key| + 1..], '"')
                 case Some(k) => if k >= 1 then Some(rest[|key| + 1..][..k]) else None
                 case None => None
               else None;
      if v.Some? then v else QuotedFrom(headers, key, i + 1)
  }

  const CRLFCRLF: Bytes := [13, 10, 13, 10]

  /** `indexOf('\r\n\r\n')` from position `from`: the first blank line. */
  function BlankLine(segment: Bytes, from: nat): (r: int)
    ensures r == -1 || (from <= r && r + 4 <= |segment|)
    decreases |segment| - from
  {
    if from + 4 > |segment| then -1
    else if segment[from] == 13 && segment[from + 1] == 10 && segment[from + 2] == 13 && segment[from + 3] == 10 then from
    else BlankLine(segment, from + 1)
  }

  /** The byte-wise search is `indexOf` of the four-byte pattern. */
  lemma {:induction false} BlankLineIsIndexOf(segment: Bytes, from: nat)
    ensures BlankLine(segment, from) == IndexOf(segment, CRLFCRLF, from)
    decreases |segment| - from
  {
    if from + 4 <= |segment| {
      assert MatchesFrom(segment, CRLFCRLF, from, 0) <==>
        segment[from] == 13 && segment[from + 1] == 10 && segment[from + 2] == 13 && segment[from + 3] == 10;
      BlankLineIsIndexOf(segment, from + 1);
    }
  }

  /** One segment between boundaries: without a blank line or a
      `name="..."` it yields nothing; otherwise a part whose data is the
      raw content when a file name is given and its text otherwise. */
  function PartOf(segment: Bytes): Option<Part> {
    var headerEnd := BlankLine(segment, 0);
    if headerEnd == -1 then None
    else
      var headers := Decode(segment[..headerEnd]);
      var content := segment[headerEnd + 4..];
      match QuotedFrom(headers, "name=", 0)
      case None => None
      case Some(name) =>
        var filename := QuotedFrom(headers, "filename=", 0);
        Some(Part(name, filename, if filename.Some? then Binary(content) else Text(Decode(content))))
  }

  /** `buf.slice(start, end)`: a negative end counts back from the end of
      the buffer, both ends are then clamped to it, and a reversed range is
      empty. */
  function Slice(buf: Bytes, start: int, end: int): (r: Bytes)
    ensures |r| <= |buf|
  {
    var lo := Clamp(if start < 0 then |buf| + start else start, |buf|);
    var hi := Clamp(if end < 0 then |buf| + end else end, |buf|);
    if hi <= lo then [] else buf[lo..hi]
  }

  function Clamp(i: int, len: nat): (r: nat)
    ensures r <= len && (0 <= i <= len ==> r == i)
  {
    if i < 0 then 0 else if i > len then len else i
  }

  /** A visited stretch of the body: from `start` to the next boundary at
      `end`. */
  datatype Segment = Segment(start: nat, end: nat)

  /** The segments the loop visits from offset `start`. */
  function SegmentsFrom(body: Bytes, delim: Bytes, start: nat): seq<Segment>
    decreases |body| - start
  {
    if start >= |body| then []
    else
      var end := IndexOf(body, delim, start);
      if end == -1 then []
      else [Segment(start, end)] + SegmentsFrom(body, delim, end + |delim| + 2)
  }

  /** The first offset: just past the first boundary and its line break
      (`indexOf` returning -1 when there is none). */
  function FirstStart(body: Bytes, delim: Bytes): nat
    requires |delim| >= 1
  {
    IndexOf(body, delim, 0) + |delim| + 2
  }

  /** The part of one segment, as a list of at most one. */
  function PartList(segment: Bytes): seq<Part> {
    match PartOf(segment)
    case Some(p) => [p]
    case None => []
  }

  /** What `f` makes of each segment of a list, in order. */
  function ConcatMap<T>(body: Bytes, segs: seq<Segment>, f: Bytes -> seq<T>): seq<T> {
    if segs == [] then [] else f(Slice(body, segs[0].start, segs[0].end - 2)) + ConcatMap(body, segs[1..], f)
  }

  /** The parts from a list of segments, in order. */
  function PartsOf(body: Bytes, segs: seq<Segment>): seq<Part> {
    ConcatMap(body, segs, PartList)
  }

  /** What `f` makes of the segments the loop visits from offset `start`,
      in order. */
  function Gather<T>(body: Bytes, delim: Bytes, start: nat, f: Bytes -> seq<T>): seq<T>
    decreases |body| - start
  {
    if start >= |body| then []
    else
      var end := IndexOf(body, delim, start);
      if end == -1 then []
      else f(Slice(body, start, end - 2)) + Gather(body, delim, end + |delim| + 2, f)
  }

  /** The parts the loop collects from offset `start`. */
  function PartsFrom(body: Bytes, delim: Bytes, start: nat): seq<Part> {
    Gather(body, delim, start, PartList)
  }

  /** The parts are those of the visited segments, in order. */
  lemma PartsFromSegments(body: Bytes, delim: Bytes, start: nat)
    ensures PartsFrom(body, delim, start) == PartsOf(body, SegmentsFrom(body, delim, start))
  {
    GatherSegments(body, delim, start, PartList);
  }

  lemma {:induction false} GatherSegments<T>(body: Bytes, delim: Bytes, start: nat, f: Bytes -> seq<T>)
    ensures Gather(body, delim, start, f) == ConcatMap(body, SegmentsFrom(body, delim, start), f)
    decreases |body| - start
  {
    if start >= |body| {
      assert SegmentsFrom(body, delim, start) == [];
    } else {
      var end := IndexOf(body, delim, start);
      if end == -1 {
        assert SegmentsFrom(body, delim, start) == [];
      } else {
        var next := SegmentsFrom(body, delim, end + |delim| + 2);
        var segs := [Segment(start, end)] + next;
        GatherSegments(body, delim, end + |delim| + 2, f);
        assert SegmentsFrom(body, delim, start) == segs;
        assert segs[0] == Segment(start, end) && segs[1..] == next;
        assert ConcatMap(body, segs, f) == f(Slice(body, start, end - 2)) + ConcatMap(body, next, f);
      }
    }
  }

  /** Each segment starts at or after `start` (the first one exactly
      there), ends at the first boundary at or after its own start (so it
      holds none), and the next one starts past that boundary and its line
      break: offsets strictly increase. */
  lemma {:induction false} SegmentsFacts(body: Bytes, delim: Bytes, start: nat)
    ensures var segs := SegmentsFrom(body, delim, start);
      && (|segs| > 0 ==> segs[0].start == start)
      && (forall k :: 0 <= k < |segs| ==>
            && start <= segs[k].start <= segs[k].end
            && segs[k].end == IndexOf(body, delim, segs[k].start)
            && OccursAt(body, delim, segs[k].end))
      && (forall k :: 0 <= k < |segs| - 1 ==> segs[k + 1].start == segs[k].end + |delim| + 2)
    decreases |body| - start
  {
    if start < |body| {
      var end := IndexOf(body, delim, start);
      if end != -1 {
        IndexOfSpec(body, delim, start);
        var rest := SegmentsFrom(body, delim, end + |delim| + 2);
        SegmentsFacts(body, delim, end + |delim| + 2);
        var segs := SegmentsFrom(body, delim, start);
        assert segs == [Segment(start, end)] + rest;
        forall k | 0 < k < |segs|
          ensures segs[k] == rest[k - 1]
        {
        }
      }
    }
  }

  /** The parse: an error without a boundary, else the parts of the
      segments in body order. */
  function Parse(body: Bytes, contentType: string): Result<seq<Part>> {
    match Boundary(contentType)
    case None => Err("No boundary found in content-type")
    case Some(b) =>
      var delim := Encode("--" + b);
      Ok(PartsFrom(body, delim, FirstStart(body, delim)))
  }

  /** Moving one piece from the pending rest to the collected prefix keeps
      their concatenation. */
  lemma MovePiece<T>(before: seq<T>, now: seq<T>, total: seq<T>, piece: seq<T>, rest: seq<T>, after: seq<T>)
    requires before + now == total && now == piece + rest && after == before + piece
    ensures after + rest == total
  {
    assert after + rest == before + (piece + rest);
  }

  /** The body of one turn: split the headers from the content at the
      first blank line, match `name="..."` and `filename="..."`, and push a
      part when there is a name. */
  method CollectPart(parts: seq<Part>, partBuffer: Bytes) returns (parts': seq<Part>)
    ensures parts' == parts + PartList(partBuffer)
  {
    parts' := parts;
    var headerEnd := BlankLine(partBuffer, 0);
    if headerEnd != -1 {
      var headers := Decode(partBuffer[..headerEnd]);
      var content := partBuffer[headerEnd + 4..];
      var nameMatch := QuotedFrom(headers, "name=", 0);
      var filenameMatch := QuotedFrom(headers, "filename=", 0);
      if nameMatch.Some? {
        parts' := parts + [Part(nameMatch.value, filenameMatch, if filenameMatch.Some? then Binary(content) else Text(Decode(content)))];
      }
    }
  }

  /** One turn of the `while (start < bodyBuffer.length)` loop: find the
      next boundary; without one, stop; with one, collect the part of the
      segment before it and move past it and its line break. Collected
      parts and the parts still to come keep their concatenation. */
  method ParseSegment(body: Bytes, delim: Bytes, start: nat, parts: seq<Part>)
    returns (parts': seq<Part>, next: nat, done: bool)
    requires start < |body|
    ensures done ==> PartsFrom(body, delim, start) == [] && parts' == parts
    ensures !done ==> start < next && parts' + PartsFrom(body, delim, next) == parts + PartsFrom(body, delim, start)
  {
    var end := IndexOf(body, delim, start);
    if end == -1 {
      GatherStops(body, delim, start, PartList);
      return parts, start, true;
    }
    next := end + |delim| + 2;
    done := false;
    parts' := CollectPart(parts, Slice(body, start, end - 2));
    PartsStep(body, delim, start, parts, parts');
  }

  /** `GatherStep` for the parts. */
  lemma PartsStep(body: Bytes, delim: Bytes, start: nat, parts: seq<Part>, parts': seq<Part>)
    requires start < |body| && IndexOf(body, delim, start) != -1
    requires parts' == parts + PartList(Slice(body, start, IndexOf(body, delim, start) - 2))
    ensures parts' + PartsFrom(body, delim, IndexOf(body, delim, start) + |delim| + 2) == parts + PartsFrom(body, delim, start)
  {
    GatherStep(body, delim, start, PartList, parts, parts');
  }

  /** Without a further boundary, nothing more is collected. */
  lemma GatherStops<T>(body: Bytes, delim: Bytes, start: nat, f: Bytes -> seq<T>)
    requires IndexOf(body, delim, start) == -1
    ensures Gather(body, delim, start, f) == []
  {
  }

  /** A turn that collected what `f` makes of the segment at `start`
      keeps the concatenation of collected and still to come. */
  lemma GatherStep<T>(body: Bytes, delim: Bytes, start: nat, f: Bytes -> seq<T>, acc: seq<T>, acc': seq<T>)
    requires start < |body| && IndexOf(body, delim, start) != -1
    requires acc' == acc + f(Slice(body, start, IndexOf(body, delim, start) - 2))
    ensures acc' + Gather(body, delim, IndexOf(body, delim, start) + |delim| + 2, f) == acc + Gather(body, delim, start, f)
  {
    var end := IndexOf(body, delim, start);
    var piece := f(Slice(body, start, end - 2));
    var rest := Gather(body, delim, end + |delim| + 2, f);
    assert Gather(body, delim, start, f) == piece + rest;
    MovePiece(acc, piece + rest, acc + (piece + rest), piece, rest, acc');
  }

  /** `parseMultipartFormData`: the boundary, then the loop from just past
      the first boundary, pushing a part for every segment that has one. */
  method ParseMultipartFormData(body: Bytes, contentType: string) returns (r: Result<seq<Part>>)
    ensures r == Parse(body, contentType)
  {
    var boundary := Boundary(contentType);
    if boundary.None? {
      return Err("No boundary found in content-type");
    }
    var delim := Encode("--" + boundary.value);
    var parts: seq<Part> := [];
    var start: nat := IndexOf(body, delim, 0) + |delim| + 2;
    ghost var total := PartsFrom(body, delim, start);
    while start < |body|
      invariant parts + PartsFrom(body, delim, start) == total
      decreases |body| - start
    {
      var next, done;
      parts, next, done := ParseSegment(body, delim, start, parts);
      if done {
        break;
      }
      start := next;
    }
    assert parts + [] == parts;
    r := Ok(parts);
  }

  /** The parser fails only when the content type has no boundary. */
  lemma ParseFailsOnlyWithoutBoundary(body: Bytes, contentType: string)
    ensures Parse(body, contentType).Err? <==> Boundary(contentType).None?
    ensures Parse(body, contentType).Err? ==> Parse(body, contentType).error == "No boundary found in content-type"
  {
  }

  /** A segment yields a part exactly when it has a blank line with a
      `name="..."` header before it; the part's data is raw bytes exactly
      when a file name was given. */
  lemma PartOfSpec(segment: Bytes)
    ensures var p := PartOf(segment);
      var headerEnd := BlankLine(segment, 0);
      && (p.Some? <==> headerEnd != -1 && QuotedFrom(Decode(segment[..headerEnd]), "name=", 0).Some?)
      && (p.Some? ==> (p.value.data.Binary? <==> p.value.filename.Some?))
      && (p.Some? && p.value.data.Binary? ==> p.value.data.bytes == segment[headerEnd + 4..])
  {
  }
}
