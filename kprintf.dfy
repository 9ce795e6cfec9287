/**
 * kprintf: the kernel's formatted console output. Characters other than '%'
 * are put unchanged; '%' starts a conversion with an optional one-digit
 * width: `d` prints an unsigned value in decimal, `h` in hexadecimal, both
 * zero-padded to the width, `s` prints a C string, and any other character
 * prints nothing and takes no argument. A '%' that ends the format ends the
 * output.
 */
module Kprintf {
  import opened Words
  import opened Numerals
  import Terminal
  import StdLib

  /** KPRINTF_BUF_SIZE. */
  const BufSize: nat := 30
  const DecBase: nat := 10
  const HexBase: nat := 16

  /** A variadic argument: an unsigned int or a string. */
  datatype Arg = Num(value: u32) | Str(text: string)

  /** One step of a format: a character put as it is, or a conversion with its width. */
  datatype Piece = Literal(c: char) | Conversion(width: nat, conv: char)

  predicate IsDigit(c: char)
  {
    '0' <= c <= '9'
  }

  /**
   * The steps kprintf takes through a format (its characters before the
   * terminating NUL). A '%' that is the last character, or a '%' and a width
   * digit that are the last two, end it.
   */
  function Pieces(fmt: string): (ps: seq<Piece>)
    decreases |fmt|
  {
    if fmt == [] then []
    else if fmt[0] != '%' then [Literal(fmt[0])] + Pieces(fmt[1..])
    else if |fmt| == 1 then []
    else if IsDigit(fmt[1]) then
      if |fmt| == 2 then []
      else [Conversion(fmt[1] as int - '0' as int, fmt[2])] + Pieces(fmt[3..])
    else [Conversion(0, fmt[1])] + Pieces(fmt[2..])
  }

  /** How many arguments a conversion takes. */
  function Taken(conv: char): nat
  {
    if conv == 'd' || conv == 'h' || conv == 's' then 1 else 0
  }

  /** The arguments start with one of the kind the conversion takes, if it takes one. */
  predicate Fits(conv: char, args: seq<Arg>)
  {
    (conv == 'd' || conv == 'h' ==> args != [] && args[0].Num?)
    && (conv == 's' ==> args != [] && args[0].Str?)
  }

  /** What one conversion puts. */
  function Converted(width: nat, conv: char, args: seq<Arg>): string
    requires Fits(conv, args)
  {
    if conv == 'd' then Padded(args[0].value, DecBase, width)
    else if conv == 'h' then Padded(args[0].value, HexBase, width)
    else if conv == 's' then CString(args[0].text)
    else []
  }

  /** Each conversion that takes an argument finds one of its kind, in order. */
  predicate Matches(ps: seq<Piece>, args: seq<Arg>)
    decreases |ps|
  {
    if ps == [] then true
    else match ps[0]
      case Literal(_) => Matches(ps[1..], args)
      case Conversion(_, conv) => Fits(conv, args) && Matches(ps[1..], args[Taken(conv)..])
  }

  /** What kprintf puts for the pieces, taking arguments in order. */
  function Render(ps: seq<Piece>, args: seq<Arg>): string
    requires Matches(ps, args)
    decreases |ps|
  {
    if ps == [] then []
    else match ps[0]
      case Literal(c) => [c] + Render(ps[1..], args)
      case Conversion(w, conv) => Converted(w, conv, args) + Render(ps[1..], args[Taken(conv)..])
  }

  /** The text kprintf puts for a format with the given arguments. */
  function Format(fmt: string, args: seq<Arg>): string
    requires Matches(Pieces(fmt), args)
  {
    Render(Pieces(fmt), args)
  }

  /** A format with no '%' is put exactly as it is, whatever the arguments. */
  lemma {:induction false} PlainTextUnchanged(fmt: string, args: seq<Arg>)
    requires '%' !in fmt
    ensures Matches(Pieces(fmt), args) && Format(fmt, args) == fmt
    decreases |fmt|
  {
    if fmt != [] {
      assert fmt == [fmt[0]] + fmt[1..];
      PlainTextUnchanged(fmt[1..], args);
    }
  }

  /** Text before the first '%' is put unchanged ahead of the rest. */
  lemma {:induction false} TextThenRest(text: string, rest: string, args: seq<Arg>)
    requires '%' !in text
    ensures Matches(Pieces(text + rest), args) <==> Matches(Pieces(rest), args)
    ensures Matches(Pieces(rest), args) ==> Format(text + rest, args) == text + Format(rest, args)
    decreases |text|
  {
    if text != [] {
      var f, c := text + rest, text[0];
      assert f[0] == c != '%' && f[1..] == text[1..] + rest;
      var ps := Pieces(f[1..]);
      assert Pieces(f) == [Literal(c)] + ps;
      assert ([Literal(c)] + ps)[1..] == ps;
      TextThenRest(text[1..], rest, args);
      assert text == [c] + text[1..];
    } else {
      assert text + rest == rest;
    }
  }

  /** A '%' at the end of the format ends the output. */
  lemma TrailingPercentEnds(text: string, args: seq<Arg>)
    requires '%' !in text
    ensures Matches(Pieces(text + "%"), args) && Format(text + "%", args) == text
  {
    TextThenRest(text, "%", args);
  }

  /** A conversion character kprintf does not know puts nothing and takes no argument. */
  lemma UnknownConversionSkipped(conv: char, rest: string, args: seq<Arg>)
    requires conv !in "dhs" && !IsDigit(conv)
    ensures Matches(Pieces(['%', conv] + rest), args) <==> Matches(Pieces(rest), args)
    ensures Matches(Pieces(rest), args) ==> Format(['%', conv] + rest, args) == Format(rest, args)
  {
    var f := ['%', conv] + rest;
    assert f[2..] == rest;
    assert conv != 'd' && conv != 'h' && conv != 's';
    assert args[0..] == args;
  }

  function Power(b: nat, e: nat): nat
  {
    if e == 0 then 1 else b * Power(b, e - 1)
  }

  /** Multiplying by a natural number keeps order. */
  lemma MulMonotone(a: nat, x: int, y: int)
    ensures x <= y ==> a * x <= a * y
  {
    if x <= y {
      NatProduct(a, y - x);
      assert a * y - a * x == a * (y - x);
    }
  }

  /** A number below base^len has at most len digits in that base. */
  lemma {:induction false} DigitsBelowPower(c: nat, base: nat, len: nat)
    requires 2 <= base <= 16 && c < Power(base, len)
    ensures |DigitsLS(c, base)| <= len
    decreases len
  {
    if c > 0 {
      assert len != 0;
      var p := Power(base, len - 1);
      assert Power(base, len) == base * p;
      DivMod(c, base);
      var q := c / base;
      MulMonotone(base, p, q);
      DigitsBelowPower(q, base, len - 1);
    }
  }

  /** An unsigned int has at most 10 decimal or 8 hexadecimal digits. */
  lemma DigitsFit(c: u32, base: nat)
    requires base == DecBase || base == HexBase
    ensures |DigitsLS(c, base)| <= 10
  {
    if base == DecBase {
      assert Power(10, 10) == 10_000_000_000;
      DigitsBelowPower(c, 10, 10);
    } else {
      assert Power(16, 8) == 0x1_0000_0000;
      DigitsBelowPower(c, 16, 8);
    }
  }

  /** `while (*p != '\0') put(*p++);`: puts the C string at the start of text. */
  method Emit(con: Terminal.Console, text: string)
    requires con.Valid()
    modifies con, con.vid
    ensures con.Valid() && con.vid == old(con.vid)
    ensures con.State() == Terminal.AfterPuts(old(con.State()), CString(text))
  {
    ghost var shown := CString(text);
    var k := 0;
    while k < |text| && text[k] != Nul
      invariant 0 <= k <= |shown| && text[..k] == shown[..k]
      invariant con.Valid() && con.vid == old(con.vid)
      invariant con.State() == Terminal.AfterPuts(old(con.State()), text[..k])
    {
      assert text[..k + 1][..k] == text[..k];
      con.Put(text[k]);
      k := k + 1;
    }
    assert text[..k] == shown;
  }

  lemma LiteralStep(f: string, a: seq<Arg>)
    requires f != [] && f[0] != '%' && Matches(Pieces(f), a)
    ensures Matches(Pieces(f[1..]), a)
    ensures Render(Pieces(f), a) == [f[0]] + Render(Pieces(f[1..]), a)
  {
    assert Pieces(f)[1..] == Pieces(f[1..]);
  }

  lemma ConversionStep(f: string, a: seq<Arg>, w: nat, conv: char, rest: string)
    requires Matches(Pieces(f), a) && Pieces(f) == [Conversion(w, conv)] + Pieces(rest)
    ensures Fits(conv, a) && Matches(Pieces(rest), a[Taken(conv)..])
    ensures Render(Pieces(f), a) == Converted(w, conv, a) + Render(Pieces(rest), a[Taken(conv)..])
  {
    assert Pieces(f)[1..] == Pieces(rest);
  }

  /** The numeric conversions: the padded digits of value left in buf as a C string. */
  method FormatNumber(buf: array<char>, value: u32, base: nat, width: nat)
    requires buf.Length == BufSize && width <= 9 && (base == DecBase || base == HexBase)
    modifies buf
    ensures CString(buf[..]) == Padded(value, base, width)
  {
    StdLib.Fill(buf, 0, BufSize, Nul);
    StdLib.Fill(buf, 0, width, '0');
    assert buf[..] == Prefilled(width, BufSize);
    DigitsFit(value, base);
    ItoaPads(value, base, width, BufSize);
    Itoa(buf, value, base);
  }

  /** The switch of kprintf and the loop that puts what it selected. */
  method Convert(con: Terminal.Console, buf: array<char>, width: nat, conv: char, args: seq<Arg>)
    requires con.Valid() && buf.Length == BufSize && width <= 9 && Fits(conv, args)
    requires buf != con.vid
    modifies con, con.vid, buf
    ensures con.Valid() && con.vid == old(con.vid)
    ensures con.State() == Terminal.AfterPuts(old(con.State()), Converted(width, conv, args))
  {
    var text: string;
    if conv == 'd' || conv == 'h' {
      var base := if conv == 'd' then DecBase else HexBase;
      FormatNumber(buf, args[0].value, base, width);
      text := buf[..];
    } else if conv == 's' {
      text := args[0].text;
    } else {
      buf[0] := Nul;
      text := buf[..];
    }
    Emit(con, text);
  }

  /**
   * kprintf(format, ...). The console ends as if the formatted text had been
   * put one character at a time.
   */
  method Kprintf(con: Terminal.Console, fmt: string, args: seq<Arg>)
    requires con.Valid() && Nul !in fmt && Matches(Pieces(fmt), args)
    modifies con, con.vid
    ensures con.Valid() && con.vid == old(con.vid)
    ensures con.State() == Terminal.AfterPuts(old(con.State()), Format(fmt, args))
  {
    var buf := new char[BufSize];
    var i, j := 0, 0;
    ghost var out: string := [];
    while i < |fmt|
      invariant i <= |fmt| && j <= |args|
      invariant con.Valid() && con.vid == old(con.vid)
      invariant Matches(Pieces(fmt[i..]), args[j..])
      invariant Format(fmt, args) == out + Render(Pieces(fmt[i..]), args[j..])
      invariant con.State() == Terminal.AfterPuts(old(con.State()), out)
    {
      ghost var out0, i0, j0 := out, i, j;
      var stop;
      ghost var emitted;
      i, j, stop, emitted := Step(con, buf, fmt, i, args, j);
      out := out0 + emitted;
      Terminal.AfterPutsConcat(old(con.State()), out0, emitted);
      if stop {
        Emitted(Format(fmt, args), out0, emitted, Render(Pieces(fmt[i0..]), args[j0..]), []);
        assert out + [] == out;
        return;
      }
      Emitted(Format(fmt, args), out0, emitted, Render(Pieces(fmt[i0..]), args[j0..]), Render(Pieces(fmt[i..]), args[j..]));
    }
    assert fmt[i..] == [];
    assert out + [] == out;
  }

  /** Bookkeeping of the output: what is emitted moves from the pending part to the put part. */
  lemma Emitted(total: string, out: string, emitted: string, pending: string, rest: string)
    requires total == out + pending && pending == emitted + rest
    ensures total == (out + emitted) + rest
  {
  }

  /**
   * One turn of the kprintf loop from format index i: a character put as it
   * is, or a conversion with its argument, or the end of the output when the
   * format ends inside a conversion.
   */
  method Step(con: Terminal.Console, buf: array<char>, fmt: string, i: nat, args: seq<Arg>, j: nat)
    returns (next: nat, taken: nat, stop: bool, ghost emitted: string)
    requires con.Valid() && buf.Length == BufSize && buf != con.vid
    requires i < |fmt| && j <= |args| && Matches(Pieces(fmt[i..]), args[j..])
    modifies con, con.vid, buf
    ensures con.Valid() && con.vid == old(con.vid)
    ensures con.State() == Terminal.AfterPuts(old(con.State()), emitted)
    ensures i < next <= |fmt| && j <= taken <= |args|
    ensures stop ==> Render(Pieces(fmt[i..]), args[j..]) == emitted
    ensures !stop ==> (Matches(Pieces(fmt[next..]), args[taken..])
      && Render(Pieces(fmt[i..]), args[j..]) == emitted + Render(Pieces(fmt[next..]), args[taken..]))
  {
    ghost var f := fmt[i..];
    var a := args[j..];
    var c := fmt[i];
    next, taken, stop := i + 1, j, false;
    assert f[1..] == fmt[next..];
    if c != '%' {
      LiteralStep(f, a);
      con.Put(c);
      emitted := [c];
      return;
    }
    if next == |fmt| {
      assert Pieces(f) == [];
      return next, taken, true, [];
    }
    c := fmt[next];
    next := next + 1;
    var width := 0;
    if IsDigit(c) {
      width := c as int - '0' as int;
      if next == |fmt| {
        assert Pieces(f) == [];
        return next, taken, true, [];
      }
      c := fmt[next];
      next := next + 1;
      assert f[3..] == fmt[next..];
    } else {
      assert f[2..] == fmt[next..];
    }
    assert Pieces(f) == [Conversion(width, c)] + Pieces(fmt[next..]);
    ConversionStep(f, a, width, c, fmt[next..]);
    Convert(con, buf, width, c, a);
    emitted := Converted(width, c, a);
    taken := j + Taken(c);
    assert a[Taken(c)..] == args[taken..];
  }
}
