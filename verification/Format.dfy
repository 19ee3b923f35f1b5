/** The bounded formatter `vsnprintf` of libc/stdio/printf.c. */
module Format {
  import opened Digits

  const INT_MAX: nat := 0x7FFF_FFFF

  /** A promoted argument: an int or a string. */
  datatype Arg = IntArg(i: int) | StrArg(s: string)

  predicate ArgOk(a: Arg) {
    match a
    case IntArg(i) => -0x8000_0000 <= i < 0x8000_0000
    case StrArg(s) => '\0' !in s
  }

  function ToChar(i: int): char { (i % 256) as char }

  function ToUnsigned(i: int): nat { i % 0x1_0000_0000 }

  predicate TakesInt(c: char) { c == 'c' || c == 'd' || c == 'i' || c == 'x' }

  predicate TakesArg(c: char) { TakesInt(c) || c == 's' }

  /** Enough arguments of the right kind for `fmt`; anything else is undefined in
      C. */
  predicate ArgsMatch(fmt: string, args: seq<Arg>)
    decreases |fmt|
  {
    if fmt == [] then true
    else if fmt[0] != '%' then ArgsMatch(fmt[1..], args)
    else if |fmt| == 1 then true
    else if TakesArg(fmt[1]) then
      && args != [] && ArgOk(args[0]) && (TakesInt(fmt[1]) <==> args[0].IntArg?)
      && ArgsMatch(fmt[2..], args[1..])
    else ArgsMatch(fmt[2..], args)
  }

  /** The text of one conversion. An unknown conversion prints a percent sign. */
  function Conversion(c: char, args: seq<Arg>): string
    requires TakesArg(c) ==> args != [] && (TakesInt(c) <==> args[0].IntArg?)
  {
    if c == 'c' then [ToChar(args[0].i)]
    else if c == 's' then args[0].s
    else if c == 'd' || c == 'i' then IntText(args[0].i, 10)
    else if c == 'x' then IntText(ToUnsigned(args[0].i), 16)
    else "%"
  }

  /** Numbers come out so that they can be read back: %d and %i as the absolute value
      followed by the sign, %x as the value modulo 2^32. */
  lemma ConversionDenotes(i: int)
    requires ArgOk(IntArg(i))
    ensures var s := Conversion('x', [IntArg(i)]);
            && Value(s, 16) == (if i < 0 then i + 0x1_0000_0000 else i)
            && (s[0] == '0' <==> i == 0)
    ensures var s := Conversion('d', [IntArg(i)]);
            && Conversion('i', [IntArg(i)]) == s
            && if i < 0 then s[|s| - 1] == '-' && Value(s[..|s| - 1], 10) == -i else Value(s, 10) == i
  {
    hide DigitsOf;
    IntTextDenotes(i, 10);
    IntTextDenotes(ToUnsigned(i), 16);
    DigitsRoundTrip(ToUnsigned(i), 16);
  }

  /** Rendering without a buffer limit: the text, and whether it stopped short at a
      trailing percent sign or at a string too long for an int to count. */
  datatype Rendering = Rendering(text: string, complete: bool)

  function Prefixed(s: string, r: Rendering): Rendering { Rendering(s + r.text, r.complete) }

  function Render(fmt: string, args: seq<Arg>, written: nat): Rendering
    requires ArgsMatch(fmt, args)
    decreases |fmt|
  {
    if fmt == [] then Rendering("", true)
    else if fmt[0] != '%' then Prefixed([fmt[0]], Render(fmt[1..], args, written + 1))
    else if |fmt| == 1 then Rendering("", false)
    else
      var piece := Conversion(fmt[1], args);
      if written + |piece| > INT_MAX then Rendering("", false)
      else Prefixed(piece, Render(fmt[2..], if TakesArg(fmt[1]) then args[1..] else args, written + |piece|))
  }

  // What each piece of a format contributes, from the front on; `ConversionDenotes`
  // is about the numbers.

  /** %s contributes its string. */
  lemma StringRendered(t: string, rest: string, args: seq<Arg>, written: nat)
    requires ArgsMatch(rest, args) && ArgOk(StrArg(t)) && written + |t| <= INT_MAX
    ensures ArgsMatch("%s" + rest, [StrArg(t)] + args)
    ensures Render("%s" + rest, [StrArg(t)] + args, written) == Prefixed(t, Render(rest, args, written + |t|))
  {
    hide Prefixed, IntText;
    assert ("%s" + rest)[2..] == rest && ([StrArg(t)] + args)[1..] == args;
  }

  /** %c contributes the character of its code modulo 256. */
  lemma CharacterRendered(i: int, rest: string, args: seq<Arg>, written: nat)
    requires ArgsMatch(rest, args) && ArgOk(IntArg(i)) && written < INT_MAX
    ensures ArgsMatch("%c" + rest, [IntArg(i)] + args)
    ensures Render("%c" + rest, [IntArg(i)] + args, written) == Prefixed([(i % 256) as char], Render(rest, args, written + 1))
  {
    hide Prefixed, IntText;
    assert ("%c" + rest)[2..] == rest && ([IntArg(i)] + args)[1..] == args;
  }

  /** %d, %i and %x contribute the text of their number. */
  lemma NumberRendered(c: char, i: int, rest: string, args: seq<Arg>, written: nat)
    requires ArgsMatch(rest, args) && ArgOk(IntArg(i)) && c in "dix" && written + 33 <= INT_MAX
    ensures ArgsMatch(['%', c] + rest, [IntArg(i)] + args)
    ensures var t := Conversion(c, [IntArg(i)]);
            Render(['%', c] + rest, [IntArg(i)] + args, written) == Prefixed(t, Render(rest, args, written + |t|))
  {
    hide Prefixed, IntText;
    IntTextFits(i, 10);
    IntTextFits(ToUnsigned(i), 16);
    assert (['%', c] + rest)[2..] == rest && ([IntArg(i)] + args)[1..] == args;
  }

  /** %% and a percent sign before any other letter contribute a percent sign, and any
      other character itself. */
  lemma PlainRendered(c: char, rest: string, args: seq<Arg>, written: nat)
    requires ArgsMatch(rest, args) && written < INT_MAX
    ensures !TakesArg(c) ==>
              && ArgsMatch(['%', c] + rest, args)
              && Render(['%', c] + rest, args, written) == Prefixed("%", Render(rest, args, written + 1))
    ensures c != '%' ==>
              && ArgsMatch([c] + rest, args)
              && Render([c] + rest, args, written) == Prefixed([c], Render(rest, args, written + 1))
  {
    hide Prefixed, IntText;
    assert (['%', c] + rest)[2..] == rest && ([c] + rest)[1..] == rest;
  }

  function Min(a: nat, b: nat): nat { if a < b then a else b }

  /** `piece` appended at `written`, cut at the limit. */
  method Append(buf: array<char>, n: nat, written: nat, piece: string) returns (w: nat)
    requires 1 <= n <= buf.Length && written < n
    modifies buf
    ensures w == Min(written + |piece|, n - 1)
    ensures buf[..w] == (old(buf[..written]) + piece)[..w]
    ensures forall k :: n - 1 <= k < buf.Length ==> buf[k] == old(buf[k])
  {
    w := written;
    var i := 0;
    while i < |piece| && w < n - 1
      invariant 0 <= i <= |piece| && w == written + i <= n - 1
      invariant forall k :: 0 <= k < written ==> buf[k] == old(buf[k])
      invariant forall k :: 0 <= k < i ==> buf[written + k] == piece[k]
      invariant forall k :: n - 1 <= k < buf.Length ==> buf[k] == old(buf[k])
    {
      buf[w] := piece[i];
      w := w + 1;
      i := i + 1;
    }
    assert buf[..w] == (old(buf[..written]) + piece)[..w];
  }

  /** The text of a conversion, by way of a local buffer for numbers. */
  method ConversionText(c: char, args: seq<Arg>) returns (piece: string)
    requires TakesArg(c) ==> args != [] && ArgOk(args[0]) && (TakesInt(c) <==> args[0].IntArg?)
    ensures piece == Conversion(c, args)
  {
    if c == 'c' {
      piece := [ToChar(args[0].i)];
    } else if c == 's' {
      piece := args[0].s;
    } else if c == 'd' || c == 'i' {
      piece := NumberText(args[0].i, 10);
    } else if c == 'x' {
      piece := NumberText(ToUnsigned(args[0].i), 16);
    } else {
      piece := "%";
    }
  }

  /** A 33-byte buffer is filled and read back up to its NUL. */
  method NumberText(i: int, base: nat) returns (s: string)
    requires 2 <= base <= 36 && -0x8000_0000 <= i < 0x1_0000_0000
    ensures s == IntText(i, base)
  {
    var str := new char[33];
    IntTextFits(i, base);
    Convert(i, str, base);
    IntTextDenotes(i, base);
    var len := 0;
    while str[len] != '\0'
      invariant 0 <= len <= |IntText(i, base)|
      decreases 33 - len
    {
      len := len + 1;
    }
    s := str[..len];
  }

  /** Stored: the first n - 1 characters of the rendering, terminated; returned:
      their number. It is -1 exactly when the rendering breaks off before the
      buffer is full, and then nothing is terminated. Nothing outside the first n
      bytes is written. */
  method Vsnprintf(buf: array<char>, n: nat, fmt: string, args: seq<Arg>) returns (r: int)
    requires 1 <= n <= INT_MAX && n <= buf.Length
    requires '\0' !in fmt && ArgsMatch(fmt, args)
    modifies buf
    ensures var full := Render(fmt, args, 0);
            if full.complete || |full.text| >= n - 1 then
              && r == Min(|full.text|, n - 1)
              && buf[..r] == full.text[..r] && buf[r] == '\0'
            else
              r == -1 && buf[..|full.text|] == full.text
    ensures forall k :: n <= k < buf.Length ==> buf[k] == old(buf[k])
  {
    hide Conversion, ArgOk, Render, ArgsMatch, Prefixed;
    ghost var full := Render(fmt, args, 0);
    ghost var done := "";
    PrefixedTwice("", "", full);
    var written := 0;
    var rest, left := fmt, args;
    while rest != [] && written < n - 1
      invariant ArgsMatch(rest, left)
      invariant full == Prefixed(done, Render(rest, left, |done|))
      invariant written == Min(|done|, n - 1) && buf[..written] == done[..written]
      invariant forall k :: n <= k < buf.Length ==> buf[k] == old(buf[k])
      decreases |rest|
    {
      RenderStep(rest, left, |done|);
      var remaining := INT_MAX - written;
      var piece;
      if rest[0] == '%' {
        PrefixedIs(done, Rendering("", false));
        if |rest| == 1 {
          return -1;
        }
        piece := ConversionText(rest[1], left);
        if remaining < |piece| {
          return -1;
        }
        left := if TakesArg(rest[1]) then left[1..] else left;
        rest := rest[2..];
      } else {
        piece := [rest[0]];
        rest := rest[1..];
      }
      written := Append(buf, n, written, piece);
      PrefixedTwice(done, piece, Render(rest, left, |done| + |piece|));
      done := done + piece;
    }
    RenderEnd(left, |done|);
    PrefixedIs(done, Render(rest, left, |done|));
    buf[written] := '\0';
    return written;
  }

  /** What one trip through the loop does to the rendering. */
  lemma RenderStep(fmt: string, args: seq<Arg>, written: nat)
    requires ArgsMatch(fmt, args) && fmt != []
    ensures fmt[0] != '%' ==>
              && ArgsMatch(fmt[1..], args)
              && Render(fmt, args, written) == Prefixed([fmt[0]], Render(fmt[1..], args, written + 1))
    ensures fmt[0] == '%' && |fmt| == 1 ==> Render(fmt, args, written) == Rendering("", false)
    ensures fmt[0] == '%' && |fmt| > 1 ==>
              && (TakesArg(fmt[1]) ==> args != [] && ArgOk(args[0]) && (TakesInt(fmt[1]) <==> args[0].IntArg?))
              && var left := if TakesArg(fmt[1]) then args[1..] else args;
                 var piece := Conversion(fmt[1], args);
                 && ArgsMatch(fmt[2..], left)
                 && Render(fmt, args, written) ==
                    if written + |piece| > INT_MAX then Rendering("", false)
                    else Prefixed(piece, Render(fmt[2..], left, written + |piece|))
  {
  }

  lemma RenderEnd(args: seq<Arg>, written: nat)
    ensures ArgsMatch([], args) && Render([], args, written) == Rendering("", true)
  {
  }

  lemma PrefixedIs(s: string, r: Rendering)
    ensures Prefixed(s, r) == Rendering(s + r.text, r.complete)
  {
  }

  lemma PrefixedTwice(a: string, b: string, r: Rendering)
    ensures Prefixed(a, Prefixed(b, r)) == Prefixed(a + b, r)
    ensures Prefixed("", r) == r
  {
  }

  // ----- when a rendering is complete

  function TrailingPercents(fmt: string): nat {
    if fmt == [] || fmt[|fmt| - 1] != '%' then 0 else 1 + TrailingPercents(fmt[..|fmt| - 1])
  }

  /** Taking characters off the front shortens the trailing run only if it is all
      there is. */
  lemma {:induction false} TrailingFront(fmt: string, k: nat)
    requires k <= |fmt|
    ensures TrailingPercents(fmt) ==
            if TrailingPercents(fmt[k..]) == |fmt| - k then |fmt| - k + TrailingPercents(fmt[..k])
            else TrailingPercents(fmt[k..])
    ensures TrailingPercents(fmt[k..]) <= |fmt| - k
  {
    if k == |fmt| {
      assert fmt[..k] == fmt;
    } else {
      var init := fmt[..|fmt| - 1];
      TrailingFront(init, k);
      assert init[k..] == fmt[k..][..|fmt| - k - 1] && init[..k] == fmt[..k];
    }
  }

  function TotalText(args: seq<Arg>): nat {
    if args == [] then 0 else (if args[0].StrArg? then |args[0].s| else 0) + TotalText(args[1..])
  }

  /** As long as the text cannot exceed an int, a rendering is complete exactly when
      the format does not end in an odd number of percent signs. */
  lemma {:induction false} CompleteIffEvenPercents(fmt: string, args: seq<Arg>, written: nat)
    requires ArgsMatch(fmt, args) && written + 33 * |fmt| + TotalText(args) <= INT_MAX
    ensures Render(fmt, args, written).complete <==> TrailingPercents(fmt) % 2 == 0
    decreases |fmt|
  {
    hide Conversion, Render, ArgsMatch;
    if fmt == [] {
      RenderEnd(args, written);
    } else {
      RenderStep(fmt, args, written);
      TrailingFront(fmt, 1);
      if fmt[0] != '%' {
        assert fmt[..1] == [fmt[0]];
        CompleteIffEvenPercents(fmt[1..], args, written + 1);
      } else if |fmt| > 1 {
        PieceFits(fmt[1], args);
        TrailingFront(fmt, 2);
        TwoCharacters(fmt[..2]);
        var left := if TakesArg(fmt[1]) then args[1..] else args;
        CompleteIffEvenPercents(fmt[2..], left, written + |Conversion(fmt[1], args)|);
      }
    }
  }

  /** A lone percent sign breaks the rendering off at once. */
  lemma LonePercentBreaksOff(written: nat)
    ensures ArgsMatch("%", []) && Render("%", [], written) == Rendering("", false)
  {
  }

  lemma TwoCharacters(s: string)
    requires |s| == 2 && s[0] == '%'
    ensures TrailingPercents(s) == if s[1] == '%' then 2 else 0
  {
    assert s[..1][..0] == [];
    assert TrailingPercents(s[..1]) == 1 + TrailingPercents(s[..1][..0]);
  }

  lemma PieceFits(c: char, args: seq<Arg>)
    requires TakesArg(c) ==> args != [] && ArgOk(args[0]) && (TakesInt(c) <==> args[0].IntArg?)
    ensures |Conversion(c, args)| + TotalText(if TakesArg(c) then args[1..] else args) <= 33 + TotalText(args)
  {
    hide IntText;
    if TakesInt(c) {
      IntTextFits(args[0].i, 10);
      IntTextFits(ToUnsigned(args[0].i), 16);
    }
  }
}
