/** The MIPS GNU/Linux assembler-output macros: the ESCAPES table,
    ASM_OUTPUT_LIMITED_STRING (one `.string` directive for a NUL-terminated
    string), ASM_OUTPUT_ASCII (a byte string cut into `.ascii` chunks and
    `.string` runs) and ASM_OUTPUT_SECTION_NAME (a table of the sections
    named so far). What the macros write to the assembler file is returned
    as a string. Each output routine is shown to assemble back to the bytes
    it was given, under the reading of the directives that `AssembleText`
    defines. */
module AsmOutput {

  type Byte = b: int | 0 <= b < 256

  // ------------------------------------------------------------------
  // The ESCAPES table

  /** `n` copies of `v`. */
  function Run(n: nat, v: int): (r: seq<int>)
    ensures |r| == n && forall i | 0 <= i < n :: r[i] == v
  {
    seq(n, _ => v)
  }

  /** ESCAPES, row by row as the table is laid out: 0 means the byte is
      written as it is, 1 means as a three-digit octal escape, anything else
      is the letter written after a backslash. */
  const Row0: seq<int> := Run(8, 1) + ['b' as int, 't' as int, 'n' as int, 1, 'f' as int, 'r' as int] + Run(18, 1)
  const Row1: seq<int> := [0, 0, '"' as int] + Run(29, 0)
  const Row2: seq<int> := Run(28, 0) + ['\\' as int] + Run(3, 0)
  const Row3: seq<int> := Run(31, 0) + [1]
  const Escapes: seq<int> := Row0 + Row1 + Row2 + Row3 + Run(128, 1)

  /** Printable ASCII other than the quote and the backslash goes out as it
      is; backspace, tab, newline, form feed and carriage return get their
      letter, the quote and the backslash themselves; every other byte is
      written in octal. */
  lemma EscapesTable()
    ensures |Escapes| == 256
    ensures forall b | 0 <= b < 256 :: (Escapes[b] == 0) == (32 <= b < 127 && b != 34 && b != 92)
    ensures forall b | 0 <= b < 256 ::
      (Escapes[b] == 1) == ((b < 32 && b != 8 && b != 9 && b != 10 && b != 12 && b != 13) || 127 <= b)
    ensures Escapes[8] == 'b' as int && Escapes[9] == 't' as int && Escapes[10] == 'n' as int
    ensures Escapes[12] == 'f' as int && Escapes[13] == 'r' as int
    ensures Escapes[34] == '"' as int && Escapes[92] == '\\' as int
  {
    forall b | 0 <= b < 256
      ensures (Escapes[b] == 0) == (32 <= b < 127 && b != 34 && b != 92)
      ensures (Escapes[b] == 1) == ((b < 32 && b != 8 && b != 9 && b != 10 && b != 12 && b != 13) || 127 <= b)
    {
      RowEntry(b);
    }
    RowEntry(8); RowEntry(9); RowEntry(10); RowEntry(12); RowEntry(13); RowEntry(34); RowEntry(92);
  }

  /** Where byte `b` sits in the rows. */
  lemma RowEntry(b: nat)
    requires b < 256
    ensures |Escapes| == 256
    ensures b < 32 ==> Escapes[b] == Row0[b]
    ensures 32 <= b < 64 ==> Escapes[b] == Row1[b - 32]
    ensures 64 <= b < 96 ==> Escapes[b] == Row2[b - 64]
    ensures 96 <= b < 128 ==> Escapes[b] == Row3[b - 96]
    ensures 128 <= b ==> Escapes[b] == 1
  {
    assert |Row0| == 32 && |Row1| == 32 && |Row2| == 32 && |Row3| == 32;
  }

  /** How byte `b` is written, in closed form: 0 as it is, 1 in octal,
      otherwise the letter after the backslash. */
  function EscapeOf(b: Byte): (r: int)
    ensures r == 0 || r == 1 || r in {'b' as int, 't' as int, 'n' as int, 'f' as int, 'r' as int, '"' as int, '\\' as int}
  {
    if b == 8 then 'b' as int else if b == 9 then 't' as int else if b == 10 then 'n' as int
    else if b == 12 then 'f' as int else if b == 13 then 'r' as int
    else if b == 34 then '"' as int else if b == 92 then '\\' as int
    else if 32 <= b < 127 then 0 else 1
  }

  /** The closed form is the ESCAPES table, entry for entry. */
  lemma EscapeOfTable()
    ensures |Escapes| == 256
    ensures forall b: Byte :: Escapes[b] == EscapeOf(b)
  {
    EscapesTable();
  }

  // ------------------------------------------------------------------
  // Escaped text

  function OctDigit(d: int): char
    requires 0 <= d < 8
  {
    ('0' as int + d) as char
  }

  /** What the macros write for one byte: the byte itself, `\ooo`, or a
      backslash and the table letter. */
  function EscapedByte(b: Byte): (r: string)
    ensures |r| == (if EscapeOf(b) == 0 then 1 else if EscapeOf(b) == 1 then 4 else 2)
  {
    var e := EscapeOf(b);
    if e == 0 then [b as char]
    else if e == 1 then ['\\', OctDigit(b / 64), OctDigit(b / 8 % 8), OctDigit(b % 8)]
    else ['\\', e as char]
  }

  function Escaped(bs: seq<Byte>): string
  {
    if bs == [] then "" else EscapedByte(bs[0]) + Escaped(bs[1..])
  }

  lemma {:induction false} EscapedAppend(a: seq<Byte>, b: seq<Byte>)
    ensures Escaped(a + b) == Escaped(a) + Escaped(b)
    decreases |a|
  {
    if a == [] {
      assert a + b == b;
    } else {
      assert (a + b)[0] == a[0] && (a + b)[1..] == a[1..] + b;
      EscapedAppend(a[1..], b);
    }
  }

  lemma EscapedSnoc(a: seq<Byte>, b: Byte)
    ensures Escaped(a + [b]) == Escaped(a) + EscapedByte(b)
  {
    EscapedAppend(a, [b]);
  }

  /** The escaped text is printable ASCII throughout. */
  lemma {:induction false} EscapedPrintable(bs: seq<Byte>)
    ensures forall i | 0 <= i < |Escaped(bs)| :: 32 <= Escaped(bs)[i] as int < 127
    decreases |bs|
  {
    if bs != [] {
      EscapedPrintable(bs[1..]);
      var e := EscapedByte(bs[0]);
      assert forall i | 0 <= i < |e| :: 32 <= e[i] as int < 127;
    }
  }

  // ------------------------------------------------------------------
  // Reading the output back: the assembler's view of the directives

  predicate IsOct(c: char) { '0' <= c <= '7' }

  /** The byte a backslash-letter escape stands for. */
  function LetterByte(c: char): Option<Byte>
  {
    if c == 'b' then Some(8) else if c == 't' then Some(9) else if c == 'n' then Some(10)
    else if c == 'f' then Some(12) else if c == 'r' then Some(13)
    else if c == '"' then Some(34) else if c == '\\' then Some(92) else None
  }

  datatype Option<T> = None | Some(value: T)

  lemma Assoc<T>(a: seq<T>, b: seq<T>, c: seq<T>)
    ensures a + b + c == a + (b + c)
  {
  }

  lemma EmptyLeft<T>(a: seq<T>)
    ensures [] + a == a && a + [] == a
  {
  }

  /** The bytes of quoted text up to its closing quote, and what follows
      the quote. */
  function ReadQuoted(s: string): (r: Option<(seq<Byte>, string)>)
    ensures r.Some? ==> |r.value.1| < |s|
    decreases |s|
  {
    if s == [] then None
    else if s[0] == '"' then Some(([], s[1..]))
    else if s[0] == '\\' then
      if |s| >= 4 && IsOct(s[1]) && IsOct(s[2]) && IsOct(s[3])
         && (s[1] as int - '0' as int) < 4 then
        var v := 64 * (s[1] as int - '0' as int) + 8 * (s[2] as int - '0' as int) + (s[3] as int - '0' as int);
        match ReadQuoted(s[4..])
        case Some((bs, rest)) => Some(([v] + bs, rest))
        case None => None
      else if |s| >= 2 && LetterByte(s[1]).Some? then
        match ReadQuoted(s[2..])
        case Some((bs, rest)) => Some(([LetterByte(s[1]).value] + bs, rest))
        case None => None
      else None
    else if 32 <= s[0] as int < 127 then
      match ReadQuoted(s[1..])
      case Some((bs, rest)) => Some(([s[0] as int] + bs, rest))
      case None => None
    else None
  }

  /** Escaped text followed by a quote reads back as the bytes it came from. */
  lemma {:induction false} ReadEscaped(bs: seq<Byte>, tail: string)
    ensures ReadQuoted(Escaped(bs) + "\"" + tail) == Some((bs, tail))
    decreases |bs|
  {
    if bs == [] {
      assert Escaped(bs) + "\"" + tail == ['"'] + tail;
    } else {
      var s1 := Escaped(bs[1..]) + "\"" + tail;
      assert Escaped(bs) + "\"" + tail == EscapedByte(bs[0]) + s1;
      ReadEscaped(bs[1..], tail);
      ReadByte(bs[0], s1);
      assert bs == [bs[0]] + bs[1..];
    }
  }

  function Prepend(b: Byte, r: Option<(seq<Byte>, string)>): Option<(seq<Byte>, string)>
  {
    match r
    case Some((bs, rest)) => Some(([b] + bs, rest))
    case None => None
  }

  /** The escape of one byte reads back as that byte. */
  lemma ReadByte(b: Byte, s1: string)
    ensures ReadQuoted(EscapedByte(b) + s1) == Prepend(b, ReadQuoted(s1))
  {
    var s := EscapedByte(b) + s1;
    if EscapeOf(b) == 0 {
      assert s[0] == b as char && s[1..] == s1;
    } else if EscapeOf(b) == 1 {
      ReadOctal(b, s1);
    } else {
      ReadLetter(b, s1);
    }
  }

  lemma ReadOctal(b: Byte, s1: string)
    requires EscapeOf(b) == 1
    ensures ReadQuoted(EscapedByte(b) + s1) == Prepend(b, ReadQuoted(s1))
  {
    var s := EscapedByte(b) + s1;
    OctalDigits(b);
    assert s[0] == '\\' && s[1] == OctDigit(b / 64) && s[2] == OctDigit(b / 8 % 8) && s[3] == OctDigit(b % 8);
    assert s[4..] == s1;
  }

  /** The three digits `\ooo` is written with, and the byte they spell. */
  lemma OctalDigits(b: Byte)
    ensures 0 <= b / 64 < 4 && 0 <= b / 8 % 8 < 8 && 0 <= b % 8 < 8
    ensures 64 * (b / 64) + 8 * (b / 8 % 8) + b % 8 == b
  {
    var q := b / 8;
    assert b == 8 * q + b % 8;
    assert q == 8 * (q / 8) + q % 8;
    assert q / 8 == b / 64;
  }

  lemma ReadLetter(b: Byte, s1: string)
    requires EscapeOf(b) != 0 && EscapeOf(b) != 1
    ensures ReadQuoted(EscapedByte(b) + s1) == Prepend(b, ReadQuoted(s1))
  {
    var s := EscapedByte(b) + s1;
    assert b == 8 || b == 9 || b == 10 || b == 12 || b == 13 || b == 34 || b == 92;
    assert s[0] == '\\' && s[1] == EscapeOf(b) as char && !IsOct(s[1]);
    assert LetterByte(s[1]) == Some(b);
    assert s[2..] == s1;
  }

  const AsciiOpen: string := "\t.ascii\t\""
  const StringOpen: string := "\t.string\t\""
  const Close: string := "\"\n"

  /** The bytes a sequence of `.ascii` and `.string` lines assembles to:
      `.string` adds the terminating NUL. */
  function AssembleText(s: string): (r: Option<seq<Byte>>)
    decreases |s|
  {
    if s == [] then Some([])
    else
      var isAscii := |s| >= |AsciiOpen| && s[..|AsciiOpen|] == AsciiOpen;
      var isString := |s| >= |StringOpen| && s[..|StringOpen|] == StringOpen;
      if !isAscii && !isString then None
      else
        var body := if isAscii then s[|AsciiOpen|..] else s[|StringOpen|..];
        match ReadQuoted(body)
        case None => None
        case Some((bs, rest)) =>
          if rest == [] || rest[0] != '\n' then None
          else
            match AssembleText(rest[1..])
            case None => None
            case Some(more) => Some((if isAscii then bs else bs + [0]) + more)
  }

  // ------------------------------------------------------------------
  // Directives

  /** One `.string` line (its bytes, the NUL not included) or one `.ascii` chunk. */
  datatype Directive = StringDir(bytes: seq<Byte>) | AsciiDir(bytes: seq<Byte>)

  function RenderDir(d: Directive): string
  {
    (if d.StringDir? then StringOpen else AsciiOpen) + Escaped(d.bytes) + Close
  }

  function Render(ds: seq<Directive>): string
  {
    if ds == [] then "" else RenderDir(ds[0]) + Render(ds[1..])
  }

  /** The bytes one directive assembles to. */
  function DirBytes(d: Directive): seq<Byte>
  {
    if d.StringDir? then d.bytes + [0] else d.bytes
  }

  function Assemble(ds: seq<Directive>): seq<Byte>
  {
    if ds == [] then [] else DirBytes(ds[0]) + Assemble(ds[1..])
  }

  lemma {:induction false} RenderAppend(a: seq<Directive>, b: seq<Directive>)
    ensures Render(a + b) == Render(a) + Render(b)
    decreases |a|
  {
    if a == [] {
      assert a + b == b;
    } else {
      assert (a + b)[0] == a[0] && (a + b)[1..] == a[1..] + b;
      RenderAppend(a[1..], b);
    }
  }

  lemma {:induction false} AssembleAppend(a: seq<Directive>, b: seq<Directive>)
    ensures Assemble(a + b) == Assemble(a) + Assemble(b)
    decreases |a|
  {
    if a == [] {
      assert a + b == b;
    } else {
      assert (a + b)[0] == a[0] && (a + b)[1..] == a[1..] + b;
      AssembleAppend(a[1..], b);
    }
  }

  /** Rendered directives read back as the bytes they stand for. */
  lemma {:induction false} RenderAssembles(ds: seq<Directive>)
    ensures AssembleText(Render(ds)) == Some(Assemble(ds))
    decreases |ds|
  {
    if ds != [] {
      RenderAssembles(ds[1..]);
      DirectiveReads(ds[0], Render(ds[1..]));
    }
  }

  /** One rendered directive in front of more text. */
  lemma DirectiveReads(d: Directive, more: string)
    ensures AssembleText(RenderDir(d) + more) ==
      (if AssembleText(more).Some? then Some(DirBytes(d) + AssembleText(more).value) else None)
  {
    if d.StringDir? {
      StringDirReads(d.bytes, more);
    } else {
      AsciiDirReads(d.bytes, more);
    }
  }

  lemma StringDirReads(bs: seq<Byte>, more: string)
    ensures AssembleText(RenderDir(StringDir(bs)) + more) ==
      (if AssembleText(more).Some? then Some(bs + [0] + AssembleText(more).value) else None)
  {
    var rest := "\n" + more;
    var body := Escaped(bs) + "\"" + rest;
    var s := RenderDir(StringDir(bs)) + more;
    assert s == StringOpen + body;
    ReadEscaped(bs, rest);
    assert rest[1..] == more;
    StringLine(s, body);
  }

  lemma AsciiDirReads(bs: seq<Byte>, more: string)
    ensures AssembleText(RenderDir(AsciiDir(bs)) + more) ==
      (if AssembleText(more).Some? then Some(bs + AssembleText(more).value) else None)
  {
    var rest := "\n" + more;
    var body := Escaped(bs) + "\"" + rest;
    var s := RenderDir(AsciiDir(bs)) + more;
    assert s == AsciiOpen + body;
    ReadEscaped(bs, rest);
    assert rest[1..] == more;
    AsciiLine(s, body);
  }

  /** How AssembleText starts on a `.string` line. */
  lemma StringLine(s: string, body: string)
    requires s == StringOpen + body
    ensures s != [] && !(|s| >= |AsciiOpen| && s[..|AsciiOpen|] == AsciiOpen)
    ensures |s| >= |StringOpen| && s[..|StringOpen|] == StringOpen && s[|StringOpen|..] == body
  {
    assert s[2] == 's' && AsciiOpen[2] == 'a';
  }

  /** How AssembleText starts on an `.ascii` line. */
  lemma AsciiLine(s: string, body: string)
    requires s == AsciiOpen + body
    ensures s != [] && |s| >= |AsciiOpen| && s[..|AsciiOpen|] == AsciiOpen && s[|AsciiOpen|..] == body
  {
  }

  // ------------------------------------------------------------------
  // ASM_OUTPUT_LIMITED_STRING

  /** The bytes of a C string: everything before the first NUL. */
  function CString(s: seq<Byte>): (r: seq<Byte>)
    requires 0 in s
    ensures |r| < |s| && s[|r|] == 0
    ensures forall j | 0 <= j < |r| :: s[j] == r[j] && r[j] != 0
  {
    NulIndexFirst(s);
    s[..NulIndex(s)]
  }

  /** Where the scan `for (p = ...; p < limit && *p != '\0'; p++)` stops. */
  function NulIndex(s: seq<Byte>): (n: nat)
    ensures n <= |s|
  {
    if s == [] then 0 else if s[0] == 0 then 0 else 1 + NulIndex(s[1..])
  }

  /** The scan stops at the first NUL, or at the end when there is none. */
  lemma {:induction false} NulIndexFirst(s: seq<Byte>)
    ensures (NulIndex(s) < |s|) == (0 in s)
    ensures NulIndex(s) < |s| ==> s[NulIndex(s)] == 0
    ensures forall j | 0 <= j < NulIndex(s) :: s[j] != 0
    decreases |s|
  {
    if s != [] && s[0] != 0 {
      NulIndexFirst(s[1..]);
      assert forall j | 1 <= j < |s| :: s[j] == s[1..][j - 1];
      assert (0 in s) == (0 in s[1..]) by {
        assert s == [s[0]] + s[1..];
      }
    }
  }

  /** A `.string` line assembles to its bytes and the NUL. */
  lemma StringDirAssembles(cs: seq<Byte>)
    ensures AssembleText(RenderDir(StringDir(cs))) == Some(cs + [0])
  {
    DirectiveReads(StringDir(cs), "");
    assert RenderDir(StringDir(cs)) + "" == RenderDir(StringDir(cs));
    assert cs + [0] + [] == cs + [0];
  }

  /** The switch on ESCAPES[ch] that both macros share: what is written for
      `ch`, and by how much `bytes_in_chunk` grows. */
  method WriteEscaped(ch: Byte) returns (text: string, width: nat)
    ensures text == EscapedByte(ch) && width == |text|
  {
    var escape := EscapeOf(ch);
    if escape == 0 {
      text := [ch as char];
      width := 1;
    } else if escape == 1 {
      text := ['\\', OctDigit(ch / 64), OctDigit(ch / 8 % 8), OctDigit(ch % 8)];
      width := 4;
    } else {
      text := ['\\', escape as char];
      width := 2;
    }
  }

  /** The `.string` directive for the C string `s` (the argument points at
      its first byte). */
  method OutputLimitedString(s: seq<Byte>) returns (out: string)
    requires 0 in s
    ensures out == RenderDir(StringDir(CString(s)))
  {
    ghost var n := |CString(s)|;
    out := StringOpen;
    var i := 0;
    while s[i] != 0
      invariant i <= n
      invariant out == StringOpen + Escaped(s[..i])
      decreases n - i
    {
      assert i != n;
      var text, _ := WriteEscaped(s[i]);
      EscapedStep(s, i);
      out := out + text;
      i := i + 1;
    }
    CStringSlice(s, i);
    out := out + Close;
  }

  /** One more byte of the scan. */
  lemma EscapedStep(s: seq<Byte>, i: nat)
    requires i < |s|
    ensures Escaped(s[..i + 1]) == Escaped(s[..i]) + EscapedByte(s[i])
  {
    EscapedSnoc(s[..i], s[i]);
    assert s[..i + 1] == s[..i] + [s[i]];
  }

  /** The scan stops exactly at the end of the C string. */
  lemma CStringSlice(s: seq<Byte>, i: nat)
    requires i < |s| && 0 in s && s[i] == 0 && i <= |CString(s)|
    ensures s[..i] == CString(s)
  {
    var cs := CString(s);
    assert forall j | 0 <= j < |cs| :: s[..i][j] == s[j];
  }

  // ------------------------------------------------------------------
  // ASM_OUTPUT_ASCII

  /** The longest NUL-terminated run written as one `.string` (its NUL not counted). */
  const StringLimit: nat := 256

  /** Closes the open `.ascii` chunk, if there is one. */
  function Flush(open: seq<Byte>): (r: seq<Directive>)
    ensures open == [] ==> r == []
    ensures open != [] ==> r == [AsciiDir(open)]
  {
    if open == [] then [] else [AsciiDir(open)]
  }

  /** Where the scan for a NUL that starts at `i` stops: at the first NUL
      at or after `i`, or at the end. */
  function NulFrom(str: seq<Byte>, i: nat): (p: nat)
    requires i <= |str|
    ensures i <= p <= |str|
    decreases |str| - i
  {
    if i == |str| || str[i] == 0 then i else NulFrom(str, i + 1)
  }

  lemma {:induction false} NulFromFirst(str: seq<Byte>, i: nat)
    requires i <= |str|
    ensures NulFrom(str, i) < |str| ==> str[NulFrom(str, i)] == 0
    ensures forall j | i <= j < NulFrom(str, i) :: str[j] != 0
    decreases |str| - i
  {
    if i < |str| && str[i] != 0 {
      NulFromFirst(str, i + 1);
    }
  }

  /** The directives ASM_OUTPUT_ASCII writes for the bytes from `i` on
      while the chunk `open` is being written; bytes_in_chunk is the length
      of the chunk's escaped text. A chunk is closed once that reaches 60;
      a NUL-terminated run of at most StringLimit bytes becomes a
      `.string`; any other byte joins the chunk. */
  function Plan(str: seq<Byte>, i: nat, open: seq<Byte>): seq<Directive>
    requires i <= |str|
    decreases |str| - i, |open|
  {
    if i == |str| then Flush(open)
    else if |Escaped(open)| >= 60 then
      assert open != [];
      [AsciiDir(open)] + Plan(str, i, [])
    else
      var p := NulFrom(str, i);
      if p < |str| && p - i <= StringLimit then Flush(open) + [StringDir(str[i..p])] + Plan(str, p + 1, [])
      else Plan(str, i + 1, open + [str[i]])
  }

  // The cases of Plan, one lemma each.

  lemma PlanFull(str: seq<Byte>, i: nat, open: seq<Byte>)
    requires i < |str| && |Escaped(open)| >= 60
    ensures open != [] && Plan(str, i, open) == [AsciiDir(open)] + Plan(str, i, [])
  {
  }

  lemma PlanString(str: seq<Byte>, i: nat, open: seq<Byte>, p: nat)
    requires i < |str| && |Escaped(open)| < 60
    requires p == NulFrom(str, i) && p < |str| && p - i <= StringLimit
    ensures Plan(str, i, open) == Flush(open) + [StringDir(str[i..p])] + Plan(str, p + 1, [])
  {
  }

  lemma PlanByte(str: seq<Byte>, i: nat, open: seq<Byte>)
    requires i < |str| && |Escaped(open)| < 60
    requires !(NulFrom(str, i) < |str| && NulFrom(str, i) - i <= StringLimit)
    ensures Plan(str, i, open) == Plan(str, i + 1, open + [str[i]])
  {
  }

  lemma FlushAssembles(open: seq<Byte>)
    ensures Assemble(Flush(open)) == open
  {
    if open != [] {
      assert Assemble([AsciiDir(open)]) == open + Assemble([]);
    }
  }

  /** A `.string` run between the closed chunk and what follows. */
  lemma StringBetween(open: seq<Byte>, body: seq<Byte>, ds: seq<Directive>)
    ensures Assemble(Flush(open) + [StringDir(body)] + ds) == open + body + [0] + Assemble(ds)
  {
    AssembleAppend(Flush(open) + [StringDir(body)], ds);
    AssembleAppend(Flush(open), [StringDir(body)]);
    assert Assemble([StringDir(body)]) == body + [0] + Assemble([]);
    FlushAssembles(open);
  }

  /** The bytes from `i` on around the NUL at `p`. */
  lemma SplitAtNul(str: seq<Byte>, i: nat, p: nat)
    requires i <= p < |str| && str[p] == 0
    ensures str[i..] == str[i..p] + [0] + str[p + 1..]
  {
  }

  /** The directives assemble to the open chunk followed by the bytes from
      `i` on: no byte is lost, repeated or reordered. */
  lemma {:induction false} PlanAssembles(str: seq<Byte>, i: nat, open: seq<Byte>)
    requires i <= |str|
    ensures Assemble(Plan(str, i, open)) == open + str[i..]
    decreases |str| - i, |open|
  {
    if i == |str| {
      FlushAssembles(open);
      EmptyLeft(open);
      assert str[i..] == [];
    } else if |Escaped(open)| >= 60 {
      PlanAssembles(str, i, []);
      FullAssembles(str, i, open);
    } else {
      var p := NulFrom(str, i);
      if p < |str| && p - i <= StringLimit {
        PlanAssembles(str, p + 1, []);
        StringAssembles(str, i, open, p);
      } else {
        PlanAssembles(str, i + 1, open + [str[i]]);
        ByteAssembles(str, i, open);
      }
    }
  }

  lemma FullAssembles(str: seq<Byte>, i: nat, open: seq<Byte>)
    requires i < |str| && |Escaped(open)| >= 60
    requires Assemble(Plan(str, i, [])) == [] + str[i..]
    ensures Assemble(Plan(str, i, open)) == open + str[i..]
  {
    PlanFull(str, i, open);
    AssembleAppend([AsciiDir(open)], Plan(str, i, []));
    assert Assemble([AsciiDir(open)]) == open + Assemble([]);
    EmptyLeft(open);
    EmptyLeft(str[i..]);
  }

  lemma ByteAssembles(str: seq<Byte>, i: nat, open: seq<Byte>)
    requires i < |str| && |Escaped(open)| < 60
    requires !(NulFrom(str, i) < |str| && NulFrom(str, i) - i <= StringLimit)
    requires Assemble(Plan(str, i + 1, open + [str[i]])) == open + [str[i]] + str[i + 1..]
    ensures Assemble(Plan(str, i, open)) == open + str[i..]
  {
    PlanByte(str, i, open);
    Assoc(open, [str[i]], str[i + 1..]);
    assert str[i..] == [str[i]] + str[i + 1..];
  }

  lemma StringAssembles(str: seq<Byte>, i: nat, open: seq<Byte>, p: nat)
    requires i < |str| && |Escaped(open)| < 60
    requires p == NulFrom(str, i) && p < |str| && p - i <= StringLimit
    requires Assemble(Plan(str, p + 1, [])) == [] + str[p + 1..]
    ensures Assemble(Plan(str, i, open)) == open + str[i..]
  {
    var body, tail := str[i..p], str[p + 1..];
    PlanString(str, i, open, p);
    StringBetween(open, body, Plan(str, p + 1, []));
    EmptyLeft(tail);
    NulFromFirst(str, i);
    SplitAtNul(str, i, p);
    Assoc(open + body, [0], tail);
    Assoc(open, body, [0] + tail);
    Assoc(body, [0], tail);
  }

  /** What every directive of a plan satisfies: a `.string` run holds no
      NUL and at most StringLimit bytes; an `.ascii` chunk holds no NUL, is
      not empty, and its escaped text stays below 64 characters, since it
      is closed as soon as it reaches 60. */
  predicate DirOk(d: Directive)
  {
    0 !in d.bytes &&
    (d.StringDir? ==> |d.bytes| <= StringLimit) &&
    (d.AsciiDir? ==> d.bytes != [] && |Escaped(d.bytes)| < 64)
  }

  predicate DirsOk(ds: seq<Directive>)
  {
    forall k | 0 <= k < |ds| :: DirOk(ds[k])
  }

  lemma DirsOkAppend(a: seq<Directive>, b: seq<Directive>)
    requires DirsOk(a) && DirsOk(b)
    ensures DirsOk(a + b)
  {
    assert forall k | 0 <= k < |a + b| :: (a + b)[k] == if k < |a| then a[k] else b[k - |a|];
  }

  lemma {:induction false} PlanShape(str: seq<Byte>, i: nat, open: seq<Byte>)
    requires i <= |str| && 0 !in open && |Escaped(open)| < 64
    ensures DirsOk(Plan(str, i, open))
    decreases |str| - i, |open|
  {
    EscapedEmpty(open);
    if i == |str| {
    } else if |Escaped(open)| >= 60 {
      PlanShape(str, i, []);
      PlanFull(str, i, open);
      DirsOkAppend([AsciiDir(open)], Plan(str, i, []));
    } else {
      var p := NulFrom(str, i);
      NulFromFirst(str, i);
      if p < |str| && p - i <= StringLimit {
        PlanShape(str, p + 1, []);
        StringShape(str, i, open, p);
      } else {
        PlanByte(str, i, open);
        EscapedSnoc(open, str[i]);
        PlanShape(str, i + 1, open + [str[i]]);
      }
    }
  }

  lemma StringShape(str: seq<Byte>, i: nat, open: seq<Byte>, p: nat)
    requires i < |str| && |Escaped(open)| < 60 && 0 !in open && (open == [] <==> |Escaped(open)| == 0)
    requires p == NulFrom(str, i) && p < |str| && p - i <= StringLimit
    requires DirsOk(Plan(str, p + 1, []))
    ensures DirsOk(Plan(str, i, open))
  {
    PlanString(str, i, open, p);
    NulFromFirst(str, i);
    assert DirOk(StringDir(str[i..p])) by {
      assert forall j | 0 <= j < p - i :: str[i..p][j] == str[i + j];
    }
    DirsOkAppend(Flush(open), [StringDir(str[i..p])]);
    DirsOkAppend(Flush(open) + [StringDir(str[i..p])], Plan(str, p + 1, []));
  }

  /** An empty chunk is one with no escaped text. */
  lemma EscapedEmpty(bs: seq<Byte>)
    ensures (bs == []) == (|Escaped(bs)| == 0)
  {
  }

  /** The assembler reads the output of ASM_OUTPUT_ASCII back as the bytes
      it was given, and every directive in it keeps to its limits. */
  lemma AsciiRoundTrip(str: seq<Byte>)
    ensures AssembleText(Render(Plan(str, 0, []))) == Some(str)
    ensures DirsOk(Plan(str, 0, []))
  {
    RenderAssembles(Plan(str, 0, []));
    PlanAssembles(str, 0, []);
    assert [] + str[0..] == str;
    PlanShape(str, 0, []);
  }

  /** The text written so far for the open chunk: its opening and its bytes. */
  function OpenText(open: seq<Byte>): string
  {
    if open == [] then "" else AsciiOpen + Escaped(open)
  }

  /** The state of ASM_OUTPUT_ASCII before byte `i`: `out` is the text
      of the directives `done` and of the open chunk, `width` is
      bytes_in_chunk, and what remains to be written is the plan for the
      rest. */
  ghost predicate AsciiInv(str: seq<Byte>, i: nat, width: nat, out: string, done: seq<Directive>, open: seq<Byte>)
  {
    i <= |str| &&
    done + Plan(str, i, open) == Plan(str, 0, []) &&
    out == Render(done) + OpenText(open) &&
    width == |Escaped(open)|
  }

  /** ASM_OUTPUT_ASCII on the LENGTH = |str| bytes of `str`. */
  method OutputAscii(str: seq<Byte>) returns (out: string)
    ensures out == Render(Plan(str, 0, []))
  {
    out := "";
    var i := 0;
    var bytesInChunk := 0;
    ghost var done: seq<Directive> := [];
    ghost var open: seq<Byte> := [];
    EmptyLeft(Plan(str, 0, []));
    while i < |str|
      invariant AsciiInv(str, i, bytesInChunk, out, done, open)
      decreases |str| - i
    {
      i, bytesInChunk, out, done, open := AsciiStep(str, i, bytesInChunk, out, done, open);
    }
    FinishChunk(str, done, open);
    if bytesInChunk > 0 {
      out := out + Close;
    }
  }

  /** One turn of the loop of ASM_OUTPUT_ASCII. */
  method AsciiStep(str: seq<Byte>, i: nat, width: nat, out: string, ghost done: seq<Directive>, ghost open: seq<Byte>)
    returns (i': nat, width': nat, out': string, ghost done': seq<Directive>, ghost open': seq<Byte>)
    requires i < |str| && AsciiInv(str, i, width, out, done, open)
    ensures i < i' && AsciiInv(str, i', width', out', done', open')
  {
    width', out', done', open' := width, out, done, open;
    if width' >= 60 {
      CloseChunk(str, i, done', open');
      out' := out' + Close;
      width' := 0;
      done' := done' + [AsciiDir(open')];
      open' := [];
    }
    var p := i;
    while p < |str| && str[p] != 0
      invariant i <= p <= |str|
      invariant NulFrom(str, p) == NulFrom(str, i)
      decreases |str| - p
    {
      p := p + 1;
    }
    if p < |str| && p - i <= StringLimit {
      i', width', out', done', open' := StringStep(str, i, p, width', out', done', open');
    } else {
      i', width', out', done', open' := ByteStep(str, i, width', out', done', open');
    }
  }

  /** A run for `.string`: the open chunk is closed, then the run is
      written by ASM_OUTPUT_LIMITED_STRING and skipped with its NUL. */
  method StringStep(str: seq<Byte>, i: nat, p: nat, width: nat, out: string, ghost done: seq<Directive>, ghost open: seq<Byte>)
    returns (i': nat, width': nat, out': string, ghost done': seq<Directive>, ghost open': seq<Byte>)
    requires i <= p < |str| && p - i <= StringLimit && p == NulFrom(str, i)
    requires AsciiInv(str, i, width, out, done, open) && width < 60
    ensures i' == p + 1 && AsciiInv(str, i', width', out', done', open')
  {
    StringRun(str, i, p, done, open);
    out' := out;
    if width > 0 {
      out' := out' + Close;
    }
    var text := OutputLimitedString(str[i..]);
    out' := out' + text;
    width' := 0;
    done' := done + Flush(open) + [StringDir(str[i..p])];
    open' := [];
    i' := p + 1;
  }

  /** A byte for the open chunk, which is opened first if need be. */
  method ByteStep(str: seq<Byte>, i: nat, width: nat, out: string, ghost done: seq<Directive>, ghost open: seq<Byte>)
    returns (i': nat, width': nat, out': string, ghost done': seq<Directive>, ghost open': seq<Byte>)
    requires i < |str| && !(NulFrom(str, i) < |str| && NulFrom(str, i) - i <= StringLimit)
    requires AsciiInv(str, i, width, out, done, open) && width < 60
    ensures i' == i + 1 && AsciiInv(str, i', width', out', done', open')
  {
    AsciiByte(str, i, done, open);
    out' := out;
    if width == 0 {
      out' := out' + AsciiOpen;
    }
    var text, w := WriteEscaped(str[i]);
    ByteText(Render(done), open, str[i], out, out');
    out' := out' + text;
    width' := width + w;
    done', open' := done, open + [str[i]];
    i' := i + 1;
  }

  /** The text of a byte that joins the chunk. */
  lemma ByteText(r: string, open: seq<Byte>, b: Byte, before: string, mid: string)
    requires before == r + OpenText(open)
    requires mid == if open == [] then before + AsciiOpen else before
    ensures mid + EscapedByte(b) == r + OpenText(open + [b])
  {
    EscapedSnoc(open, b);
    if open == [] {
      EmptyLeft(r);
      assert [] + [b] == [b];
      assert Escaped([b]) == EscapedByte(b) + Escaped([]);
      EmptyLeft(EscapedByte(b));
      Assoc(r, AsciiOpen, EscapedByte(b));
    } else {
      Assoc(r, AsciiOpen + Escaped(open), EscapedByte(b));
      Assoc(AsciiOpen, Escaped(open), EscapedByte(b));
    }
  }

  /** Closing a full chunk at the top of the loop. */
  lemma CloseChunk(str: seq<Byte>, i: nat, done: seq<Directive>, open: seq<Byte>)
    requires i < |str| && |Escaped(open)| >= 60
    ensures open != []
    ensures done + Plan(str, i, open) == (done + [AsciiDir(open)]) + Plan(str, i, [])
    ensures Render(done) + OpenText(open) + Close == Render(done + [AsciiDir(open)]) + OpenText([])
  {
    PlanFull(str, i, open);
    Assoc(done, [AsciiDir(open)], Plan(str, i, []));
    CloseOpen(done, open);
  }

  /** The text of a closed chunk. */
  lemma CloseOpen(done: seq<Directive>, open: seq<Byte>)
    requires open != []
    ensures Render(done) + OpenText(open) + Close == Render(done + [AsciiDir(open)]) + OpenText([])
  {
    RenderAppend(done, [AsciiDir(open)]);
    assert Render([AsciiDir(open)]) == RenderDir(AsciiDir(open)) + Render([]);
  }

  /** A NUL-terminated run short enough for `.string`: the open chunk is
      closed first. */
  lemma StringRun(str: seq<Byte>, i: nat, p: nat, done: seq<Directive>, open: seq<Byte>)
    requires i <= p < |str| && p - i <= StringLimit && p == NulFrom(str, i)
    requires |Escaped(open)| < 60
    requires done + Plan(str, i, open) == Plan(str, 0, [])
    ensures (open == []) == (|Escaped(open)| == 0)
    ensures 0 in str[i..] && CString(str[i..]) == str[i..p]
    ensures (done + Flush(open) + [StringDir(str[i..p])]) + Plan(str, p + 1, []) == Plan(str, 0, [])
    ensures open == [] ==>
      Render(done) + OpenText(open) + RenderDir(StringDir(str[i..p])) == Render(done + Flush(open) + [StringDir(str[i..p])]) + OpenText([])
    ensures open != [] ==>
      Render(done) + OpenText(open) + Close + RenderDir(StringDir(str[i..p])) == Render(done + Flush(open) + [StringDir(str[i..p])]) + OpenText([])
  {
    EscapedEmpty(open);
    var s := StringDir(str[i..p]);
    PlanString(str, i, open, p);
    Assoc(done + Flush(open), [s], Plan(str, p + 1, []));
    Assoc(done, Flush(open), [s] + Plan(str, p + 1, []));
    Assoc(Flush(open), [s], Plan(str, p + 1, []));
    RunIsCString(str, i, p);
    StringText(done, open, str[i..p]);
    if open == [] {
      EmptyLeft(Render(done) + OpenText(open));
    }
  }

  /** The run from `i` up to the NUL at `p` is the C string at `i`. */
  lemma RunIsCString(str: seq<Byte>, i: nat, p: nat)
    requires i <= p < |str| && p == NulFrom(str, i)
    ensures 0 in str[i..] && CString(str[i..]) == str[i..p]
  {
    NulFromFirst(str, i);
    var s := str[i..];
    assert s[p - i] == 0;
    CStringSlice(s, p - i);
    assert s[..p - i] == str[i..p];
  }

  /** The text of a `.string` run after the chunk it closes. */
  lemma StringText(done: seq<Directive>, open: seq<Byte>, body: seq<Byte>)
    ensures Render(done) + OpenText(open) + (if open == [] then "" else Close) + RenderDir(StringDir(body))
      == Render(done + Flush(open) + [StringDir(body)]) + OpenText([])
  {
    var d := RenderDir(StringDir(body));
    RenderAppend(done + Flush(open), [StringDir(body)]);
    RenderOne(StringDir(body));
    RenderAppend(done, Flush(open));
    FlushText(open);
    Assoc(Render(done), OpenText(open), if open == [] then "" else Close);
    EmptyLeft(Render(done + Flush(open) + [StringDir(body)]));
  }

  lemma RenderOne(d: Directive)
    ensures Render([d]) == RenderDir(d)
  {
    assert Render([d]) == RenderDir(d) + Render([]);
    EmptyLeft(RenderDir(d));
  }

  /** The text of the chunk Flush closes. */
  lemma FlushText(open: seq<Byte>)
    ensures Render(Flush(open)) == OpenText(open) + (if open == [] then "" else Close)
  {
    if open != [] {
      RenderOne(AsciiDir(open));
    }
  }

  /** A byte that joins the open chunk. */
  lemma AsciiByte(str: seq<Byte>, i: nat, done: seq<Directive>, open: seq<Byte>)
    requires i < |str| && |Escaped(open)| < 60
    requires !(NulFrom(str, i) < |str| && NulFrom(str, i) - i <= StringLimit)
    requires done + Plan(str, i, open) == Plan(str, 0, [])
    ensures (open == []) == (|Escaped(open)| == 0)
    ensures done + Plan(str, i + 1, open + [str[i]]) == Plan(str, 0, [])
    ensures |Escaped(open + [str[i]])| == |Escaped(open)| + |EscapedByte(str[i])|
  {
    EscapedEmpty(open);
    PlanByte(str, i, open);
    EscapedSnoc(open, str[i]);
  }

  /** The chunk still open at the end is closed. */
  lemma FinishChunk(str: seq<Byte>, done: seq<Directive>, open: seq<Byte>)
    requires done + Plan(str, |str|, open) == Plan(str, 0, [])
    ensures (open == []) == (|Escaped(open)| == 0)
    ensures Render(Plan(str, 0, [])) == Render(done) + OpenText(open) + (if open == [] then "" else Close)
  {
    EscapedEmpty(open);
    RenderAppend(done, Flush(open));
    if open != [] {
      assert Render([AsciiDir(open)]) == RenderDir(AsciiDir(open)) + Render([]);
    }
  }

  // ------------------------------------------------------------------
  // ASM_OUTPUT_SECTION_NAME

  /** What DECL is: none, a FUNCTION_DECL, or another declaration together
      with what DECL_READONLY_SECTION (DECL, RELOC) answers for it. */
  datatype Decl = NoDecl | FunctionDecl | DataDecl(readonlySection: bool)

  datatype SectKind = SectRw | SectRo | SectExec

  /** One entry of the static `sections` list. */
  datatype SectionInfo = SectionInfo(name: string, kind: SectKind)

  /** Executable for a function, read-only for read-only data, writable
      otherwise (no declaration included). */
  function KindOf(decl: Decl): (k: SectKind)
    ensures (k == SectExec) == decl.FunctionDecl?
    ensures (k == SectRo) == (decl.DataDecl? && decl.readonlySection)
  {
    match decl
    case FunctionDecl => SectExec
    case DataDecl(ro) => if ro then SectRo else SectRw
    case NoDecl => SectRw
  }

  /** The attribute flags written when a section is first named. */
  function ModeOf(k: SectKind): (m: string)
    ensures 'a' in m && (('x' in m) == (k == SectExec)) && (('w' in m) == (k == SectRw))
  {
    match k
    case SectExec => "ax"
    case SectRo => "a"
    case SectRw => "aw"
  }

  /** The first entry named `name`, as the strcmp loop finds it. */
  function Lookup(sections: seq<SectionInfo>, name: string): (r: Option<nat>)
    ensures r.Some? ==> r.value < |sections| && sections[r.value].name == name
    ensures r.Some? ==> forall j | 0 <= j < r.value :: sections[j].name != name
    ensures r.None? ==> forall j | 0 <= j < |sections| :: sections[j].name != name
  {
    if sections == [] then None
    else if sections[0].name == name then Some(0)
    else match Lookup(sections[1..], name)
      case None => None
      case Some(k) => Some(k + 1)
  }

  /** No section is listed twice. */
  ghost predicate Distinct(sections: seq<SectionInfo>)
  {
    forall i, j | 0 <= i < j < |sections| :: sections[i].name != sections[j].name
  }

  /** In a list without repeats, the entry found is the only one with that name. */
  lemma LookupUnique(sections: seq<SectionInfo>, name: string, k: nat)
    requires Distinct(sections) && k < |sections|
    ensures (Lookup(sections, name) == Some(k)) == (sections[k].name == name)
  {
  }

  /** Adding a name that is not yet listed keeps the list free of repeats. */
  lemma PrependDistinct(sections: seq<SectionInfo>, s: SectionInfo)
    requires Distinct(sections) && Lookup(sections, s.name).None?
    ensures Distinct([s] + sections)
  {
    var t := [s] + sections;
    forall i, j | 0 <= i < j < |t| ensures t[i].name != t[j].name {
      if i == 0 {
        assert t[j] == sections[j - 1];
      } else {
        assert t[i] == sections[i - 1] && t[j] == sections[j - 1];
      }
    }
  }

  /** The text for a section named the first time, and again. */
  function FirstUseLine(name: string, k: SectKind): string
  {
    ".section\t" + name + ",\"" + ModeOf(k) + "\",@progbits\n"
  }

  function LaterUseLine(name: string): string
  {
    ".section\t" + name + "\n"
  }

  /** The sections named so far, most recent first. */
  class SectionTable {
    var sections: seq<SectionInfo>

    ghost predicate Valid()
      reads this
    {
      Distinct(sections)
    }

    constructor ()
      ensures Valid() && sections == []
    {
      sections := [];
    }

    /** The `for (s = sections; s; s = s->next)` search. */
    method Find(name: string) returns (r: Option<nat>)
      ensures r == Lookup(sections, name)
    {
      var k := 0;
      while k < |sections|
        invariant k <= |sections|
        invariant forall j | 0 <= j < k :: sections[j].name != name
        decreases |sections| - k
      {
        if sections[k].name == name {
          LookupFirst(sections, name, k);
          return Some(k);
        }
        k := k + 1;
      }
      LookupFirst(sections, name, k);
      return None;
    }

    /** ASM_OUTPUT_SECTION_NAME: a section named the first time is listed
        with the kind of DECL and written with its flags; a section named
        again is written by name only, and a conflict is reported when DECL
        is given and its kind is not the one listed. */
    method OutputSectionName(decl: Decl, name: string) returns (out: string, conflict: bool)
      requires Valid()
      modifies this
      ensures Valid()
      ensures Lookup(old(sections), name).None? ==>
        sections == [SectionInfo(name, KindOf(decl))] + old(sections) &&
        out == FirstUseLine(name, KindOf(decl)) && !conflict
      ensures Lookup(old(sections), name).Some? ==>
        sections == old(sections) && out == LaterUseLine(name) &&
        conflict == (decl != NoDecl && old(sections)[Lookup(old(sections), name).value].kind != KindOf(decl))
    {
      var s := Find(name);
      var kind := KindOf(decl);
      var mode := ModeOf(kind);
      if s.None? {
        PrependDistinct(sections, SectionInfo(name, kind));
        sections := [SectionInfo(name, kind)] + sections;
        out := ".section\t" + name + ",\"" + mode + "\",@progbits\n";
        conflict := false;
      } else {
        conflict := decl != NoDecl && sections[s.value].kind != kind;
        out := ".section\t" + name + "\n";
      }
    }
  }

  /** The search stops at the first entry with the name, or at the end. */
  lemma LookupFirst(sections: seq<SectionInfo>, name: string, k: nat)
    requires k <= |sections| && forall j | 0 <= j < k :: sections[j].name != name
    requires k < |sections| ==> sections[k].name == name
    ensures Lookup(sections, name) == if k < |sections| then Some(k) else None
  {
  }
}
