/** CON_vsprintf of kernel/src/lib/conio.c: the format interpreter. */
module Format {
  import opened Words
  import opened Numbers

  /** A format is a sequence of plain characters and of percent signs followed by a character. */
  datatype Piece = Plain(c: char) | Percent(c: char)

  predicate WellFormed(p: Piece) {
    p.Plain? ==> p.c != '%'
  }

  function Source(ps: seq<Piece>): string {
    if ps == [] then ""
    else (if ps[0].Plain? then [ps[0].c] else ['%', ps[0].c]) + Source(ps[1..])
  }

  /** The pieces of a format, and whether a percent sign without a character is left at the end. */
  datatype Parsed = Parsed(pieces: seq<Piece>, dangling: bool)

  function Parse(fmt: string): Parsed {
    if fmt == "" then Parsed([], false)
    else if fmt[0] != '%' then var r := Parse(fmt[1..]); r.(pieces := [Plain(fmt[0])] + r.pieces)
    else if |fmt| == 1 then Parsed([], true)
    else var r := Parse(fmt[2..]); r.(pieces := [Percent(fmt[1])] + r.pieces)
  }

  /** The unit of the format at position f. */
  function PieceAt(fmt: string, f: nat): Piece
    requires f < |fmt| && (fmt[f] == '%' ==> f + 1 < |fmt|)
  {
    if fmt[f] != '%' then Plain(fmt[f]) else Percent(fmt[f + 1])
  }

  lemma ParseStep(f: string)
    requires f != "" && (f[0] == '%' ==> |f| > 1)
    ensures var r := Parse(f[if f[0] == '%' then 2 else 1..]);
            Parse(f) == r.(pieces := [PieceAt(f, 0)] + r.pieces)
  {
  }

  /** Parsing is the inverse of writing the pieces down, in both directions. */
  lemma {:induction false} ParseOfSource(ps: seq<Piece>)
    requires forall i :: 0 <= i < |ps| ==> WellFormed(ps[i])
    ensures Parse(Source(ps)) == Parsed(ps, false)
  {
    if ps != [] {
      var fmt := Source(ps);
      ParseOfSource(ps[1..]);
      ParseStep(fmt);
      assert PieceAt(fmt, 0) == ps[0];
      assert fmt[if fmt[0] == '%' then 2 else 1..] == Source(ps[1..]);
      assert [ps[0]] + ps[1..] == ps;
    }
  }

  lemma {:induction false} SourceOfParse(fmt: string)
    ensures var r := Parse(fmt);
            && (forall i :: 0 <= i < |r.pieces| ==> WellFormed(r.pieces[i]))
            && fmt == Source(r.pieces) + (if r.dangling then "%" else "")
  {
    if fmt == "" {
    } else if fmt[0] != '%' {
      SourceOfParse(fmt[1..]);
      assert Parse(fmt).pieces[1..] == Parse(fmt[1..]).pieces;
      assert fmt == [fmt[0]] + fmt[1..];
    } else if |fmt| > 1 {
      SourceOfParse(fmt[2..]);
      assert Parse(fmt).pieces[1..] == Parse(fmt[2..]).pieces;
      assert fmt == ['%', fmt[1]] + fmt[2..];
    }
  }

  function TrailingPercents(fmt: string): nat {
    if fmt == "" || fmt[|fmt| - 1] != '%' then 0 else 1 + TrailingPercents(fmt[..|fmt| - 1])
  }

  lemma {:induction false} TrailingOfRest(fmt: string, k: nat)
    requires 0 < k < |fmt| && (exists i :: k <= i < |fmt| && fmt[i] != '%')
    ensures TrailingPercents(fmt) == TrailingPercents(fmt[k..])
  {
    if fmt[|fmt| - 1] == '%' {
      assert fmt[k..][..|fmt| - k - 1] == fmt[..|fmt| - 1][k..];
      TrailingOfRest(fmt[..|fmt| - 1], k);
    }
  }

  lemma {:induction false} AllPercents(fmt: string)
    requires forall i :: 0 <= i < |fmt| ==> fmt[i] == '%'
    ensures TrailingPercents(fmt) == |fmt|
  {
    if fmt != "" { AllPercents(fmt[..|fmt| - 1]); }
  }

  lemma {:induction false} PercentsAfter(fmt: string, k: nat)
    requires 0 < k <= |fmt| && fmt[k - 1] != '%' && forall i :: k <= i < |fmt| ==> fmt[i] == '%'
    ensures TrailingPercents(fmt) == |fmt| - k
  {
    if k < |fmt| { PercentsAfter(fmt[..|fmt| - 1], k); }
  }

  lemma TrailingOfPercents(fmt: string, k: nat)
    requires 0 < k <= |fmt| && forall i :: k <= i < |fmt| ==> fmt[i] == '%'
    ensures TrailingPercents(fmt[k..]) == |fmt| - k
    ensures fmt[k - 1] != '%' ==> TrailingPercents(fmt) == |fmt| - k
    ensures k == 2 && fmt[0] == fmt[1] == '%' ==> TrailingPercents(fmt) == |fmt|
  {
    AllPercents(fmt[k..]);
    if fmt[k - 1] != '%' {
      PercentsAfter(fmt, k);
    } else if k == 2 && fmt[0] == '%' {
      AllPercents(fmt);
    }
  }

  /** Dropping the first unit of a format drops none or two of its trailing percent signs. */
  lemma TrailingParity(fmt: string, k: nat)
    requires 0 < k <= |fmt| && (if fmt[0] == '%' then k == 2 else k == 1)
    ensures TrailingPercents(fmt) - TrailingPercents(fmt[k..]) in {0, 2}
  {
    if exists i :: k <= i < |fmt| && fmt[i] != '%' {
      TrailingOfRest(fmt, k);
    } else {
      TrailingOfPercents(fmt, k);
    }
  }

  /** The interpreter steps over the terminator of a format exactly when the format ends in an odd
      number of percent signs. */
  lemma {:induction false} DanglingExactlyWhen(fmt: string)
    ensures Parse(fmt).dangling <==> TrailingPercents(fmt) % 2 == 1
  {
    if |fmt| > 1 {
      var k := if fmt[0] == '%' then 2 else 1;
      TrailingParity(fmt, k);
      DanglingExactlyWhen(fmt[k..]);
    } else if |fmt| == 1 {
      assert fmt[..0] == "" && fmt[1..] == "";
    }
  }

  // ----- meaning -----

  datatype Arg = IntArg(i: int) | UnsignedArg(u: Word) | CharArg(ch: char) | StringArg(s: string)

  predicate IsInt32(i: int) {
    -0x8000_0000 < i < 0x8000_0000
  }

  /** The piece takes an argument. */
  predicate Takes(p: Piece) {
    p.Percent? && p.c in "csdiuXx"
  }

  predicate ArgFits(p: Piece, a: Arg) {
    if p.c == 'c' then a.CharArg?
    else if p.c == 's' then a.StringArg? && NUL !in a.s
    else if p.c == 'd' || p.c == 'i' then a.IntArg? && IsInt32(a.i)
    else a.UnsignedArg?
  }

  /** The arguments are those the conversions take, in order. */
  predicate ArgsFit(ps: seq<Piece>, args: seq<Arg>) {
    if ps == [] then true
    else if Takes(ps[0]) then args != [] && ArgFits(ps[0], args[0]) && ArgsFit(ps[1..], args[1..])
    else ArgsFit(ps[1..], args)
  }

  function ShowArg(p: Piece, a: Arg): string
    requires Takes(p) && ArgFits(p, a)
  {
    match a
    case CharArg(c) => [c]
    case StringArg(s) => s
    case IntArg(i) => ItoaText(i, 10)
    case UnsignedArg(u) => Numeral(u, if p.c == 'u' then 10 else 16)
  }

  /** What a piece without argument prints: itself, except that two percent signs print one. */
  function ShowPlain(p: Piece): string
  {
    if p.Plain? then [p.c] else if p.c == '%' then "%" else ['%', p.c]
  }

  /** The printed text: every piece in order, each conversion with the next argument. */
  function Render(ps: seq<Piece>, args: seq<Arg>): string
    requires ArgsFit(ps, args)
  {
    if ps == [] then ""
    else if Takes(ps[0]) then ShowArg(ps[0], args[0]) + Render(ps[1..], args[1..])
    else ShowPlain(ps[0]) + Render(ps[1..], args)
  }

  // ----- what the conversions print -----

  /** How many arguments the pieces take. */
  function Taken(ps: seq<Piece>): nat {
    if ps == [] then 0 else (if Takes(ps[0]) then 1 else 0) + Taken(ps[1..])
  }

  /** The arguments are those of the format, no more and no fewer. */
  predicate Fits(fmt: string, args: seq<Arg>) {
    ArgsFit(Parse(fmt).pieces, args) && |args| == Taken(Parse(fmt).pieces)
  }

  function TextOf(fmt: string, args: seq<Arg>): string
    requires Fits(fmt, args)
  {
    Render(Parse(fmt).pieces, args)
  }

  lemma SamePieces(p: Piece, ps: seq<Piece>, qs: seq<Piece>)
    ensures [p] + (ps + qs) == ([p] + ps) + qs
  {
  }

  lemma {:induction false} ParseConcat(f: string, g: string)
    requires !Parse(f).dangling
    ensures Parse(f + g) == Parse(g).(pieces := Parse(f).pieces + Parse(g).pieces)
  {
    if f == "" {
      assert f + g == g && Parse(g).pieces == Parse(f).pieces + Parse(g).pieces;
    } else {
      var k := if f[0] == '%' then 2 else 1;
      ParseStep(f);
      ParseStep(f + g);
      ParseConcat(f[k..], g);
      assert (f + g)[k..] == f[k..] + g;
      SamePieces(PieceAt(f, 0), Parse(f[k..]).pieces, Parse(g).pieces);
    }
  }

  lemma Regrouped(a: string, b: string, c: string)
    ensures a + (b + c) == (a + b) + c
  {
  }

  lemma {:induction false} RenderConcat(ps: seq<Piece>, qs: seq<Piece>, args: seq<Arg>, brgs: seq<Arg>)
    requires ArgsFit(ps, args) && |args| == Taken(ps) && ArgsFit(qs, brgs)
    ensures ArgsFit(ps + qs, args + brgs) && Taken(ps + qs) == Taken(ps) + Taken(qs)
    ensures Render(ps + qs, args + brgs) == Render(ps, args) + Render(qs, brgs)
  {
    if ps == [] {
      assert ps + qs == qs && args + brgs == brgs;
    } else {
      assert (ps + qs)[1..] == ps[1..] + qs && (ps + qs)[0] == ps[0];
      if Takes(ps[0]) {
        assert (args + brgs)[1..] == args[1..] + brgs && (args + brgs)[0] == args[0];
        RenderConcat(ps[1..], qs, args[1..], brgs);
        Regrouped(ShowArg(ps[0], args[0]), Render(ps[1..], args[1..]), Render(qs, brgs));
      } else {
        RenderConcat(ps[1..], qs, args, brgs);
        Regrouped(ShowPlain(ps[0]), Render(ps[1..], args), Render(qs, brgs));
      }
    }
  }

  /** The text of a format put together from two is the text of the first, with the first arguments, and
      then that of the second, with the rest. */
  lemma TextOfConcat(f: string, g: string, args: seq<Arg>, brgs: seq<Arg>)
    requires !Parse(f).dangling && Fits(f, args) && Fits(g, brgs)
    ensures Fits(f + g, args + brgs) && TextOf(f + g, args + brgs) == TextOf(f, args) + TextOf(g, brgs)
  {
    ParseConcat(f, g);
    RenderConcat(Parse(f).pieces, Parse(g).pieces, args, brgs);
  }

  lemma TextOfConversion(c: char, args: seq<Arg>)
    requires ArgsFit([Percent(c)], args)
    ensures Parse(['%', c]) == Parsed([Percent(c)], false)
    ensures Taken([Percent(c)]) == if Takes(Percent(c)) then 1 else 0
    ensures Render([Percent(c)], args) == if Takes(Percent(c)) then ShowArg(Percent(c), args[0]) else ShowPlain(Percent(c))
  {
    assert ['%', c][2..] == "";
  }

  /** Digits only, and none of them a leading zero. */
  predicate IsNumeral(t: string, digits: string) {
    t != "" && (forall i :: 0 <= i < |t| ==> t[i] in digits) && (t[0] == '0' ==> t == "0")
  }

  /** "%u" prints an unsigned number in decimal, "%x" and "%X" in hexadecimal. */
  lemma UnsignedConversions(u: Word)
    ensures Fits("%u", [UnsignedArg(u)]) && Fits("%x", [UnsignedArg(u)]) && Fits("%X", [UnsignedArg(u)])
    ensures var t := TextOf("%u", [UnsignedArg(u)]); IsNumeral(t, "0123456789") && Denotes(t, 10) == u
    ensures var t := TextOf("%x", [UnsignedArg(u)]);
            IsNumeral(t, "0123456789ABCDEF") && Denotes(t, 16) == u && TextOf("%X", [UnsignedArg(u)]) == t
  {
    TextOfConversion('u', [UnsignedArg(u)]);
    TextOfConversion('x', [UnsignedArg(u)]);
    TextOfConversion('X', [UnsignedArg(u)]);
    NumeralDenotes(u, 10);
    NumeralDenotes(u, 16);
    NumeralIsNumeral(u);
  }

  /** "%d" and "%i" print the magnitude in decimal, and behind a negative number its sign. */
  lemma SignedConversions(i: int)
    requires -0x8000_0000 < i < 0x8000_0000
    ensures Fits("%d", [IntArg(i)]) && Fits("%i", [IntArg(i)])
    ensures var t := TextOf("%d", [IntArg(i)]); var n := if i < 0 then |t| - 1 else |t|;
            && n >= 0 && IsNumeral(t[..n], "0123456789") && t[n..] == (if i < 0 then "-" else "")
            && Denotes(t[..n], 10) == (if i < 0 then -i else i)
            && TextOf("%i", [IntArg(i)]) == t
  {
    TextOfConversion('d', [IntArg(i)]);
    TextOfConversion('i', [IntArg(i)]);
    ItoaInNumbers(i, 10);
    var t := ItoaText(i, 10);
    var n := if i < 0 then |t| - 1 else |t|;
    assert t[0] == t[..n][0];
  }

  /** "%c" prints its character and "%s" its text. */
  lemma TextConversions(ch: char, text: string)
    requires '\0' !in text
    ensures Fits("%c", [CharArg(ch)]) && TextOf("%c", [CharArg(ch)]) == [ch]
    ensures Fits("%s", [StringArg(text)]) && TextOf("%s", [StringArg(text)]) == text
  {
    TextOfConversion('c', [CharArg(ch)]);
    TextOfConversion('s', [StringArg(text)]);
  }

  /** "%%" prints a percent sign; a percent sign and any other character print themselves, and so does
      any character after no percent sign. */
  lemma OtherCharacters(q: char)
    ensures Fits("%%", []) && TextOf("%%", []) == "%"
    ensures q !in {'c', 's', 'd', 'i', 'u', 'x', 'X', '%'} ==> Fits(['%', q], []) && TextOf(['%', q], []) == ['%', q]
    ensures q != '%' ==> Fits([q], []) && TextOf([q], []) == [q]
  {
    TextOfConversion('%', []);
    if q !in "csdiuXx" { TextOfConversion(q, []); }
    if q != '%' {
      assert [q][1..] == "";
      assert Parse([q]).pieces == [Plain(q)];
    }
  }

  lemma NumeralIsNumeral(v: nat)
    ensures IsNumeral(Numeral(v, 10), "0123456789") && IsNumeral(Numeral(v, 16), "0123456789ABCDEF")
  {
    NumeralShape(v, 10);
    NumeralShape(v, 16);
  }

  // ----- the interpreter -----

  /** memcpy to the output. */
  method Append(str: array<char>, pos: nat, text: string)
    requires pos + |text| <= str.Length
    modifies str
    ensures str[..pos + |text|] == old(str[..pos]) + text
  {
    var k := 0;
    while k < |text|
      invariant 0 <= k <= |text|
      invariant str[..pos + k] == old(str[..pos]) + text[..k]
    {
      str[pos + k] := text[k];
      assert str[..pos + (k + 1)] == str[..pos + k] + [text[k]];
      k := k + 1;
    }
    assert text[..k] == text;
  }

  method Strnlen(buf: array<char>, max: nat) returns (len: nat)
    requires max <= buf.Length
    ensures len <= max && NUL !in buf[..len] && (len < max ==> buf[len] == NUL)
  {
    len := 0;
    while len < max && buf[len] != NUL
      invariant 0 <= len <= max && NUL !in buf[..len]
    {
      len := len + 1;
    }
  }

  lemma NumeralHasNoNul(v: nat, base: nat)
    requires 2 <= base <= 16
    ensures NUL !in Numeral(v, base)
  {
    forall i | 0 <= i < |Numeral(v, base)| ensures Numeral(v, base)[i] != NUL { NumeralHas(v, base, i); }
  }

  lemma TerminatedLength(b: seq<char>, text: string, length: nat)
    requires |text| < |b| && b[..|text|] == text && b[|text|] == NUL && NUL !in text
    requires length <= |b| && NUL !in b[..length] && (length < |b| ==> b[length] == NUL)
    ensures length == |text| && b[..length] == text
  {
    forall j | 0 <= j < length ensures b[j] != NUL { assert b[..length][j] == b[j]; }
    forall j | 0 <= j < |text| ensures b[j] != NUL { assert b[..|text|][j] == b[j]; }
  }

  lemma ItoaTextFits(i: int)
    requires -0x8000_0000 < i < 0x8000_0000
    ensures |ItoaText(i, 10)| <= 11 && NUL !in ItoaText(i, 10)
  {
    AtMostTenDigits(Magnitude(i));
    NumeralHasNoNul(Magnitude(i), 10);
  }

  /** The number, printed into the 13-byte buffer. */
  method PrintNumber(buf: array<char>, p: Piece, a: Arg)
    requires Takes(p) && ArgFits(p, a) && (a.IntArg? || a.UnsignedArg?) && buf.Length == 13
    modifies buf
    ensures var text := ShowArg(p, a);
            |text| < 13 && NUL !in text && buf[..|text|] == text && buf[|text|] == NUL
  {
    if a.IntArg? {
      ItoaTextFits(a.i);
      Itoa(a.i, buf, 10);
    } else {
      var base := if p.c == 'u' then 10 else 16;
      AtMostElevenDigits(a.u, base);
      NumeralHasNoNul(a.u, base);
      Utoa(a.u, buf, base);
    }
  }

  /** A number goes through the 13-byte buffer to the output. */
  method AppendNumber(str: array<char>, pos: nat, p: Piece, a: Arg)
    requires Takes(p) && ArgFits(p, a) && (a.IntArg? || a.UnsignedArg?)
    requires pos + |ShowArg(p, a)| <= str.Length
    modifies str
    ensures str[..pos + |ShowArg(p, a)|] == old(str[..pos]) + ShowArg(p, a)
  {
    var buf := new char[13];
    PrintNumber(buf, p, a);
    var length := Strnlen(buf, 13);
    TerminatedLength(buf[..], ShowArg(p, a), length);
    Append(str, pos, buf[..length]);
  }

  /** One conversion with its argument. */
  method AppendArg(str: array<char>, pos: nat, p: Piece, a: Arg)
    requires Takes(p) && ArgFits(p, a) && pos + |ShowArg(p, a)| <= str.Length
    modifies str
    ensures str[..pos + |ShowArg(p, a)|] == old(str[..pos]) + ShowArg(p, a)
  {
    match a
    case CharArg(c) => Append(str, pos, [c]);
    case StringArg(s) => Append(str, pos, s);
    case _ => AppendNumber(str, pos, p, a);
  }

  /** What the piece prints when the next argument is number va, and the next argument after it. */
  function Shown(p: Piece, args: seq<Arg>, va: nat): string
    requires Takes(p) ==> va < |args| && ArgFits(p, args[va])
  {
    if Takes(p) then ShowArg(p, args[va]) else ShowPlain(p)
  }

  function NextArg(p: Piece, va: nat): nat {
    if Takes(p) then va + 1 else va
  }

  /** One turn of the interpreter loop for a complete unit of the format. */
  method AppendPiece(str: array<char>, pos: nat, p: Piece, args: seq<Arg>, va: nat) returns (n: nat, va': nat)
    requires Takes(p) ==> va < |args| && ArgFits(p, args[va])
    requires pos + |Shown(p, args, va)| <= str.Length
    modifies str
    ensures n == pos + |Shown(p, args, va)| && va' == NextArg(p, va)
    ensures str[..n] == old(str[..pos]) + Shown(p, args, va)
  {
    n := pos + |Shown(p, args, va)|;
    if Takes(p) {
      AppendArg(str, pos, p, args[va]);
      va' := va + 1;
    } else {
      Append(str, pos, ShowPlain(p));
      va' := va;
    }
  }

  /** What is still to be printed from position f of the format and argument va on. */
  ghost function Remaining(fmt: string, f: nat, args: seq<Arg>, va: nat): string
    requires Expects(fmt, f, args, va)
  {
    Render(Parse(fmt[f..]).pieces, args[va..])
  }

  ghost predicate Expects(fmt: string, f: nat, args: seq<Arg>, va: nat) {
    f <= |fmt| && va <= |args| && ArgsFit(Parse(fmt[f..]).pieces, args[va..])
  }

  /** The next unit of the format and what it contributes. */
  lemma PieceStep(fmt: string, f: nat, args: seq<Arg>, va: nat)
    requires f < |fmt| && (fmt[f] == '%' ==> f + 1 < |fmt|) && Expects(fmt, f, args, va)
    ensures var p := PieceAt(fmt, f); var g := if fmt[f] != '%' then f + 1 else f + 2;
            && Parse(fmt[f..]).dangling == Parse(fmt[g..]).dangling
            && (Takes(p) ==> va < |args| && ArgFits(p, args[va]))
            && Expects(fmt, g, args, NextArg(p, va))
            && Remaining(fmt, f, args, va) == Shown(p, args, va) + Remaining(fmt, g, args, NextArg(p, va))
  {
    var p := PieceAt(fmt, f);
    var g := if fmt[f] != '%' then f + 1 else f + 2;
    assert fmt[f..][g - f..] == fmt[g..];
    assert Parse(fmt[f..]).pieces == [p] + Parse(fmt[g..]).pieces;
    assert Parse(fmt[f..]).pieces[1..] == Parse(fmt[g..]).pieces;
    if Takes(p) { assert args[va..][1..] == args[va + 1..]; }
  }

  /** The state of the interpreter: what is printed and what remains make up the whole text. */
  ghost predicate Printing(done: string, fmt: string, f: nat, args: seq<Arg>, va: nat, text: string, dangling: bool) {
    Expects(fmt, f, args, va) && done + Remaining(fmt, f, args, va) == text && Parse(fmt[f..]).dangling == dangling
  }

  lemma PrintingStep(done: string, fmt: string, f: nat, args: seq<Arg>, va: nat, text: string, dangling: bool)
    requires f < |fmt| && (fmt[f] == '%' ==> f + 1 < |fmt|) && Printing(done, fmt, f, args, va, text, dangling)
    ensures var p := PieceAt(fmt, f);
            && (Takes(p) ==> va < |args| && ArgFits(p, args[va]))
            && |done| + |Shown(p, args, va)| <= |text|
            && Printing(done + Shown(p, args, va), fmt, if fmt[f] != '%' then f + 1 else f + 2, args,
                        NextArg(p, va), text, dangling)
  {
    PieceStep(fmt, f, args, va);
  }

  lemma PrintingEnds(done: string, fmt: string, f: nat, args: seq<Arg>, va: nat, text: string, dangling: bool)
    requires Printing(done, fmt, f, args, va, text, dangling) && (f == |fmt| || (f + 1 == |fmt| && fmt[f] == '%'))
    ensures done == text && (dangling <==> f < |fmt|)
  {
    assert f < |fmt| ==> fmt[f..] == "%";
  }

  /** One turn of the interpreter loop. */
  method Turn(str: array<char>, fmt: string, f: nat, args: seq<Arg>, va: nat, n: nat, ghost text: string, ghost dangling: bool)
    returns (f': nat, va': nat, n': nat)
    requires f < |fmt| && (fmt[f] == '%' ==> f + 1 < |fmt|) && n <= |text| <= str.Length
    requires Printing(str[..n], fmt, f, args, va, text, dangling)
    modifies str
    ensures f < f' <= |fmt| && n' <= |text| && Printing(str[..n'], fmt, f', args, va', text, dangling)
  {
    PrintingStep(str[..n], fmt, f, args, va, text, dangling);
    n', va' := AppendPiece(str, n, PieceAt(fmt, f), args, va);
    f' := if fmt[f] != '%' then f + 1 else f + 2;
  }

  /** CON_vsprintf.  The output is the rendering and a terminator, and the result their joint length;
      with a dangling percent sign the interpreter leaves the format (None: from there on it reads
      memory that is no format). */
  method Vsprintf(str: array<char>, fmt: string, args: seq<Arg>) returns (r: Option<nat>)
    requires ArgsFit(Parse(fmt).pieces, args)
    requires |Render(Parse(fmt).pieces, args)| + (if Parse(fmt).dangling then 2 else 1) <= str.Length
    modifies str
    ensures r.None? <==> Parse(fmt).dangling
    ensures var text := Render(Parse(fmt).pieces, args);
            && str[..|text|] == text
            && (r.Some? ==> r.value == |text| + 1 && str[|text|] == '\0')
  {
    ghost var text := Render(Parse(fmt).pieces, args);
    ghost var dangling := Parse(fmt).dangling;
    assert fmt[0..] == fmt && args[0..] == args;
    var f: nat, va: nat, n: nat := 0, 0, 0;
    while f < |fmt|
      invariant n <= |text| && f <= |fmt|
      invariant Printing(str[..n], fmt, f, args, va, text, dangling)
    {
      if fmt[f] == '%' && f + 1 == |fmt| {
        PrintingEnds(str[..n], fmt, f, args, va, text, dangling);
        Append(str, n, ['%', NUL]);
        return None;
      }
      f, va, n := Turn(str, fmt, f, args, va, n, text, dangling);
    }
    PrintingEnds(str[..n], fmt, f, args, va, text, dangling);
    str[n] := NUL;
    r := Some(n + 1);
  }
}
