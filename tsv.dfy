/** The tab-separated record codec of the snapshot files: field escaping and
    unescaping, splitting a line into fields, and integer parsing and printing.
    Each string algorithm is a function, and the index loop that computes it is
    a method proved equal to that function. */
module Tsv {
  import opened Util

  const Tab: char := '\t'
  const Newline: char := '\n'
  const Backslash: char := '\\'

  /** The character that `\c` stands for: `\t` and `\n` are the two
      recognised escapes; any other character stands for itself. */
  function Decode(c: char): char {
    if c == 't' then Tab else if c == 'n' then Newline else c
  }

  function EscapeChar(c: char): string {
    if c == Tab then [Backslash, 't'] else if c == Newline then [Backslash, 'n'] else [c]
  }

  /** `escapeField`: tab and newline become two-character escapes; every
      other character, the backslash included, is kept as it is. */
  function Escape(s: string): (e: string)
    ensures |e| >= |s|
  {
    if s == [] then [] else EscapeChar(s[0]) + Escape(s[1..])
  }

  /** An escaped field holds no raw tab or newline, so it can neither split
      a record nor break a line. */
  lemma {:induction false} EscapeRemovesBreaks(s: string)
    ensures Tab !in Escape(s) && Newline !in Escape(s)
  {
    if s != [] {
      EscapeRemovesBreaks(s[1..]);
    }
  }

  /** A field without tab or newline is written as it is. */
  lemma {:induction false} EscapeKeepsPlain(s: string)
    requires Tab !in s && Newline !in s
    ensures Escape(s) == s
  {
    if s != [] {
      assert s == [s[0]] + s[1..];
      EscapeKeepsPlain(s[1..]);
    }
  }

  lemma {:induction false} EscapeConcat(a: string, b: string)
    ensures Escape(a + b) == Escape(a) + Escape(b)
  {
    if a == [] {
      assert a + b == b;
    } else {
      assert (a + b)[0] == a[0] && (a + b)[1..] == a[1..] + b;
      EscapeConcat(a[1..], b);
      calc {
        Escape(a + b);
        EscapeChar(a[0]) + Escape(a[1..] + b);
        EscapeChar(a[0]) + (Escape(a[1..]) + Escape(b));
        (EscapeChar(a[0]) + Escape(a[1..])) + Escape(b);
      }
    }
  }

  /** `unescapeField`: a backslash and the character after it become the
      character the pair stands for; a backslash at the very end stays. */
  function Unescape(s: string): (r: string)
    ensures |r| <= |s|
    ensures Backslash !in s ==> r == s
  {
    if s == [] then []
    else if s[0] == Backslash && |s| >= 2 then [Decode(s[1])] + Unescape(s[2..])
    else [s[0]] + Unescape(s[1..])
  }

  /** Decoding undoes encoding for every field without a backslash. */
  lemma {:induction false} UnescapeEscape(s: string)
    requires Backslash !in s
    ensures Unescape(Escape(s)) == s
  {
    if s != [] {
      assert s == [s[0]] + s[1..];
      UnescapeEscape(s[1..]);
      var rest := Escape(s[1..]);
      if s[0] == Tab || s[0] == Newline {
        assert (EscapeChar(s[0]) + rest)[2..] == rest;
      } else {
        assert (EscapeChar(s[0]) + rest)[1..] == rest;
      }
    }
  }

  /** `splitTsv` from some point of the line on: `escaping` says whether the
      previous character was an escaping backslash, `current` is the field
      read so far. An unescaped tab ends a field; a pending backslash at the
      end of the line is dropped. */
  function SplitFrom(s: string, escaping: bool, current: string): (parts: seq<string>)
    ensures |parts| >= 1
  {
    if s == [] then [current]
    else
      var c := s[0];
      if !escaping && c == Tab then [current] + SplitFrom(s[1..], false, [])
      else if !escaping && c == Backslash then SplitFrom(s[1..], true, current)
      else if escaping then SplitFrom(s[1..], false, current + [Decode(c)])
      else SplitFrom(s[1..], false, current + [c])
  }

  function SplitTsv(line: string): (parts: seq<string>)
    ensures |parts| >= 1
  {
    SplitFrom(line, false, [])
  }

  /** The number of tabs that separate fields: those not preceded by an
      escaping backslash. */
  function SeparatorCount(s: string, escaping: bool): nat {
    if s == [] then 0
    else if !escaping && s[0] == Tab then 1 + SeparatorCount(s[1..], false)
    else if !escaping && s[0] == Backslash then SeparatorCount(s[1..], true)
    else SeparatorCount(s[1..], false)
  }

  /** A line splits into one more field than it has separating tabs. */
  lemma {:induction false} SplitCount(s: string, escaping: bool, current: string)
    ensures |SplitFrom(s, escaping, current)| == SeparatorCount(s, escaping) + 1
  {
    if s != [] {
      var c := s[0];
      if !escaping && c == Tab {
        SplitCount(s[1..], false, []);
      } else if !escaping && c == Backslash {
        SplitCount(s[1..], true, current);
      } else if escaping {
        SplitCount(s[1..], false, current + [Decode(c)]);
      } else {
        SplitCount(s[1..], false, current + [c]);
      }
    }
  }

  /** Without backslashes every tab separates two fields. */
  lemma {:induction false} SeparatorsWithoutBackslash(s: string)
    requires Backslash !in s
    ensures SeparatorCount(s, false) == multiset(s)[Tab]
  {
    if s != [] {
      assert s == [s[0]] + s[1..];
      SeparatorsWithoutBackslash(s[1..]);
    }
  }

  /** The fields of a record joined by tabs, as the savers write them. */
  function Join(fields: seq<string>): string {
    if |fields| == 0 then []
    else if |fields| == 1 then fields[0]
    else fields[0] + [Tab] + Join(fields[1..])
  }

  lemma {:induction false} JoinWithoutNewline(fields: seq<string>)
    requires forall i :: 0 <= i < |fields| ==> Newline !in fields[i]
    ensures Newline !in Join(fields)
  {
    if |fields| > 1 {
      JoinWithoutNewline(fields[1..]);
    }
  }

  /** Seven fields joined by tabs, the shape of a book line, make one line of the
      file when none of them holds a line break. */
  lemma {:induction false} SevenFieldsOneLine(e0: string, e1: string, e2: string, e3: string, e4: string, e5: string, e6: string)
    requires Newline !in e0
    requires Newline !in e1
    requires Newline !in e2
    requires Newline !in e3
    requires Newline !in e4
    requires Newline !in e5
    requires Newline !in e6
    ensures Newline !in Join([e0, e1, e2, e3, e4, e5, e6])
  {
    var es := [e0, e1, e2, e3, e4, e5, e6];
    forall i | 0 <= i < 7 ensures Newline !in es[i] {
      if i == 0 {} else if i == 1 {} else if i == 2 {} else if i == 3 {} else if i == 4 {} else if i == 5 {} else {}
    }
    JoinWithoutNewline(es);
  }

  /** Seven escaped backslash-free fields joined by tabs split back into the
      fields. */
  lemma {:induction false} SplitSevenFields(e0: string, e1: string, e2: string, e3: string, e4: string, e5: string, e6: string,
      f0: string, f1: string, f2: string, f3: string, f4: string, f5: string, f6: string)
    requires Backslash !in f0 && e0 == Escape(f0)
    requires Backslash !in f1 && e1 == Escape(f1)
    requires Backslash !in f2 && e2 == Escape(f2)
    requires Backslash !in f3 && e3 == Escape(f3)
    requires Backslash !in f4 && e4 == Escape(f4)
    requires Backslash !in f5 && e5 == Escape(f5)
    requires Backslash !in f6 && e6 == Escape(f6)
    ensures SplitTsv(Join([e0, e1, e2, e3, e4, e5, e6])) == [f0, f1, f2, f3, f4, f5, f6]
  {
    var es, fs := [e0, e1, e2, e3, e4, e5, e6], [f0, f1, f2, f3, f4, f5, f6];
    // One case per position: each case sees only the requires of its field.
    forall i | 0 <= i < 7 ensures Backslash !in fs[i] && es[i] == Escape(fs[i]) {
      if i == 0 {} else if i == 1 {} else if i == 2 {} else if i == 3 {} else if i == 4 {} else if i == 5 {} else {}
    }
    SplitJoin(es, fs);
  }

  /** Six fields joined by tabs, the shape of a user line, make one line of the
      file when none of them holds a line break. */
  lemma {:induction false} SixFieldsOneLine(e0: string, e1: string, e2: string, e3: string, e4: string, e5: string)
    requires Newline !in e0
    requires Newline !in e1
    requires Newline !in e2
    requires Newline !in e3
    requires Newline !in e4
    requires Newline !in e5
    ensures Newline !in Join([e0, e1, e2, e3, e4, e5])
  {
    var es := [e0, e1, e2, e3, e4, e5];
    forall i | 0 <= i < 6 ensures Newline !in es[i] {
      if i == 0 {} else if i == 1 {} else if i == 2 {} else if i == 3 {} else if i == 4 {} else {}
    }
    JoinWithoutNewline(es);
  }

  /** Six escaped backslash-free fields joined by tabs split back into the
      fields. */
  lemma {:induction false} SplitSixFields(e0: string, e1: string, e2: string, e3: string, e4: string, e5: string,
      f0: string, f1: string, f2: string, f3: string, f4: string, f5: string)
    requires Backslash !in f0 && e0 == Escape(f0)
    requires Backslash !in f1 && e1 == Escape(f1)
    requires Backslash !in f2 && e2 == Escape(f2)
    requires Backslash !in f3 && e3 == Escape(f3)
    requires Backslash !in f4 && e4 == Escape(f4)
    requires Backslash !in f5 && e5 == Escape(f5)
    ensures SplitTsv(Join([e0, e1, e2, e3, e4, e5])) == [f0, f1, f2, f3, f4, f5]
  {
    var es, fs := [e0, e1, e2, e3, e4, e5], [f0, f1, f2, f3, f4, f5];
    // One case per position: each case sees only the requires of its field.
    forall i | 0 <= i < 6 ensures Backslash !in fs[i] && es[i] == Escape(fs[i]) {
      if i == 0 {} else if i == 1 {} else if i == 2 {} else if i == 3 {} else if i == 4 {} else {}
    }
    SplitJoin(es, fs);
  }

  function UnescapeAll(fields: seq<string>): (r: seq<string>)
    ensures |r| == |fields| && forall i :: 0 <= i < |fields| ==> r[i] == Unescape(fields[i])
  {
    seq(|fields|, i requires 0 <= i < |fields| => Unescape(fields[i]))
  }

  /** One step of the split over an escape pair. */
  lemma EscapePairStep(d: char, rest: string, current: string)
    ensures SplitFrom([Backslash, d] + rest, false, current) == SplitFrom(rest, false, current + [Decode(d)])
  {
    assert ([Backslash, d] + rest)[1..] == [d] + rest;
    assert ([d] + rest)[1..] == rest;
  }

  /** One step of the split over a character that is neither a tab nor a backslash. */
  lemma PlainStep(c: char, rest: string, current: string)
    requires c != Tab && c != Backslash
    ensures SplitFrom([c] + rest, false, current) == SplitFrom(rest, false, current + [c])
  {
    assert ([c] + rest)[1..] == rest;
  }

  /** Splitting reads an escaped backslash-free field back into the current
      field. */
  lemma {:induction false} SplitEscaped(f: string, rest: string, current: string)
    requires Backslash !in f
    ensures SplitFrom(Escape(f) + rest, false, current) == SplitFrom(rest, false, current + f)
  {
    if f == [] {
      assert Escape(f) + rest == rest;
      assert current + f == current;
    } else {
      var c := f[0];
      assert f == [c] + f[1..];
      var tail := Escape(f[1..]) + rest;
      assert Escape(f) + rest == EscapeChar(c) + tail;
      if c == Tab {
        EscapePairStep('t', tail, current);
      } else if c == Newline {
        EscapePairStep('n', tail, current);
      } else {
        PlainStep(c, tail, current);
      }
      SplitEscaped(f[1..], rest, current + [c]);
      assert current + [c] + f[1..] == current + f;
    }
  }

  /** Joining the escaped forms of backslash-free fields and splitting the
      line gives the fields back. */
  lemma {:induction false} SplitJoin(escaped: seq<string>, fields: seq<string>)
    requires |fields| >= 1 && |escaped| == |fields|
    requires forall i :: 0 <= i < |fields| ==> Backslash !in fields[i] && escaped[i] == Escape(fields[i])
    ensures SplitTsv(Join(escaped)) == fields
  {
    if |fields| == 1 {
      SplitEscaped(fields[0], [], []);
      assert Join(escaped) == escaped[0] + [];
      assert [] + fields[0] == fields[0];
      assert fields == [fields[0]];
    } else {
      var rest := Join(escaped[1..]);
      assert Join(escaped) == Escape(fields[0]) + ([Tab] + rest);
      SplitEscaped(fields[0], [Tab] + rest, []);
      assert ([Tab] + rest)[1..] == rest;
      SplitJoin(escaped[1..], fields[1..]);
      assert [] + fields[0] == fields[0];
      assert fields == [fields[0]] + fields[1..];
    }
  }

  /** The backslash is not escaped, so a field ending in one takes the
      following separator tab into itself: two fields are read back as one. */
  lemma TrailingBackslashSwallowsSeparator(x: string, y: string)
    requires Backslash !in x && Backslash !in y
    ensures SplitTsv(Join([Escape(x + [Backslash]), Escape(y)])) == [x + [Tab] + y]
  {
    var ey := Escape(y);
    var rest := [Backslash, Tab] + ey;
    calc {
      SplitTsv(Join([Escape(x + [Backslash]), ey]));
      { JoinTwo(Escape(x + [Backslash]), ey); EscapeKeepsBackslash(x);
        assert Escape(x + [Backslash]) + [Tab] + ey == Escape(x) + rest; }
      SplitFrom(Escape(x) + rest, false, []);
      { SplitEscaped(x, rest, []); assert [] + x == x; }
      SplitFrom(rest, false, x);
      { EscapePairStep(Tab, ey, x); }
      SplitFrom(ey, false, x + [Tab]);
      { assert ey + [] == ey; SplitEscaped(y, [], x + [Tab]); }
      SplitFrom([], false, x + [Tab] + y);
    }
  }

  lemma JoinTwo(a: string, b: string)
    ensures Join([a, b]) == a + [Tab] + b
  {
    assert [a, b][1..] == [b];
  }

  lemma EscapeKeepsBackslash(x: string)
    ensures Escape(x + [Backslash]) == Escape(x) + [Backslash]
  {
    EscapeConcat(x, [Backslash]);
    assert Escape([Backslash]) == [Backslash];
  }

  /** A lone backslash at the end of a line is dropped by the split. */
  lemma TrailingBackslashDropped(x: string)
    requires Backslash !in x
    ensures SplitTsv(Escape(x) + [Backslash]) == [x]
  {
    SplitEscaped(x, [Backslash], []);
    assert [] + x == x;
    assert [Backslash][1..] == [];
  }

  /** The index loop of `escapeField`. */
  method EscapeField(s: string) returns (out: string)
    ensures out == Escape(s)
  {
    out := [];
    for i := 0 to |s|
      invariant out == Escape(s[..i])
    {
      var c := s[i];
      if c == Tab {
        out := out + [Backslash, 't'];
      } else if c == Newline {
        out := out + [Backslash, 'n'];
      } else {
        out := out + [c];
      }
      assert s[..i + 1] == s[..i] + [c];
      EscapeConcat(s[..i], [c]);
    }
    assert s[..|s|] == s;
  }

  /** One step of `Unescape` at position `i`: an escape pair or one
      plain character. */
  lemma UnescapeAt(s: string, i: nat)
    requires i < |s|
    ensures Unescape(s[i..]) ==
      if s[i] == Backslash && i + 1 < |s| then [Decode(s[i + 1])] + Unescape(s[i + 2..])
      else [s[i]] + Unescape(s[i + 1..])
  {
    assert s[i..][0] == s[i];
    if s[i] == Backslash && i + 1 < |s| {
      assert s[i..][1] == s[i + 1] && s[i..][2..] == s[i + 2..];
    } else {
      assert s[i..][1..] == s[i + 1..];
    }
  }

  /** The index loop of `unescapeField`; an escape pair advances by two. */
  method UnescapeField(s: string) returns (out: string)
    ensures out == Unescape(s)
  {
    out := [];
    var i := 0;
    while i < |s|
      invariant 0 <= i <= |s|
      invariant out + Unescape(s[i..]) == Unescape(s)
    {
      UnescapeAt(s, i);
      ghost var before, from := out, i;
      var piece := if s[i] == Backslash && i + 1 < |s| then [Decode(s[i + 1])] else [s[i]];
      i := if s[i] == Backslash && i + 1 < |s| then i + 2 else i + 1;
      out := out + piece;
      assert Unescape(s[from..]) == piece + Unescape(s[i..]);
      AppendAssoc(before, piece, Unescape(s[i..]));
    }
    assert s[i..] == [];
  }

  /** The index loop of `splitTsv`. */
  method SplitTsvFields(line: string) returns (parts: seq<string>)
    ensures parts == SplitTsv(line)
  {
    parts := [];
    var current: string := [];
    var escaping := false;
    for i := 0 to |line|
      invariant parts + SplitFrom(line[i..], escaping, current) == SplitTsv(line)
    {
      var c := line[i];
      assert line[i..][1..] == line[i + 1..];
      if !escaping && c == Tab {
        parts := parts + [current];
        current := [];
      } else if !escaping && c == Backslash {
        escaping := true;
      } else if escaping {
        current := current + [Decode(c)];
        escaping := false;
      } else {
        current := current + [c];
      }
    }
    parts := parts + [current];
  }

  // ---------------------------------------------------------------------
  // Integers: `std::stoi` with the check that it read the whole text, and
  // the decimal form `operator<<` writes.

  const IntMin: int := -0x8000_0000
  const IntMax: int := 0x7fff_ffff

  /** The characters `isspace` accepts in the C locale. */
  predicate IsSpace(c: char) {
    c == ' ' || c == Tab || c == Newline || c == '\U{B}' || c == '\U{C}' || c == '\r'
  }

  predicate IsDigit(c: char) {
    '0' <= c <= '9'
  }

  /** Every character is a decimal digit. */
  predicate AllDigits(s: string) {
    s == [] || (AllDigits(s[..|s| - 1]) && IsDigit(s[|s| - 1]))
  }

  lemma {:induction false} DigitsArePlain(s: string)
    requires AllDigits(s)
    ensures Backslash !in s && Tab !in s && Newline !in s && '-' !in s
  {
    if s != [] {
      DigitsArePlain(s[..|s| - 1]);
      assert s == s[..|s| - 1] + [s[|s| - 1]];
    }
  }

  lemma {:induction false} DigitsAt(s: string)
    requires AllDigits(s)
    ensures forall i :: 0 <= i < |s| ==> IsDigit(s[i])
  {
    if s != [] {
      DigitsAt(s[..|s| - 1]);
    }
  }

  function DigitChar(d: nat): char
    requires d < 10
  {
    (('0' as int) + d) as char
  }

  /** The value of a string of decimal digits. */
  function DigitsValue(s: string): nat
    requires AllDigits(s)
  {
    if s == [] then 0
    else DigitsValue(s[..|s| - 1]) * 10 + ((s[|s| - 1] as int) - ('0' as int))
  }

  /** An optional sign and at least one digit, with nothing after them, and
      a value that fits in 32 bits. */
  function ParseSigned(t: string): (r: Option<int>)
    ensures r.Some? ==> IntMin <= r.value <= IntMax
    ensures r.Some? ==> |t| > 0 && IsDigit(t[|t| - 1])
  {
    var signed := |t| > 0 && (t[0] == '-' || t[0] == '+');
    var digits := if signed then t[1..] else t;
    if digits == [] || !AllDigits(digits) then None
    else
      assert digits[|digits| - 1] == t[|t| - 1];
      var v := if signed && t[0] == '-' then -(DigitsValue(digits) as int) else DigitsValue(digits);
      if IntMin <= v <= IntMax then Some(v) else None
  }

  /** `tryParseInt`: `stoi` skips leading white space, then reads a signed
      number; the parse succeeds only when that consumed the whole text. */
  function TryParseInt(text: string): (r: Option<int>)
    ensures r.Some? ==> IntMin <= r.value <= IntMax
    ensures r.Some? ==> |text| > 0 && IsDigit(text[|text| - 1])
  {
    if text != [] && IsSpace(text[0]) then TryParseInt(text[1..]) else ParseSigned(text)
  }

  /** Every character is white space. */
  predicate AllSpace(s: string) {
    forall i :: 0 <= i < |s| ==> IsSpace(s[i])
  }

  /** The value of digits after an optional sign. */
  function SignedValue(sign: string, digits: string): int
    requires AllDigits(digits)
  {
    if sign == "-" then -(DigitsValue(digits) as int) else DigitsValue(digits)
  }

  /** Text that is white space, an optional sign and at least one digit is
      read as its value when that fits in 32 bits, and rejected otherwise. */
  lemma {:induction false} TryParseIntAccepts(w: string, sign: string, digits: string)
    requires AllSpace(w) && (sign == "" || sign == "-" || sign == "+")
    requires digits != [] && AllDigits(digits)
    ensures var v := SignedValue(sign, digits);
            TryParseInt(w + sign + digits) == if IntMin <= v <= IntMax then Some(v) else None
  {
    var t := w + sign + digits;
    if w == [] {
      assert t == sign + digits;
      DigitsAt(digits);
      if sign == [] {
        assert t == digits && IsDigit(t[0]);
        assert TryParseInt(t) == ParseSigned(t);
      } else {
        assert t[1..] == digits;
      }
    } else {
      assert t[0] == w[0];
      assert t[1..] == w[1..] + sign + digits;
      TryParseIntAccepts(w[1..], sign, digits);
    }
  }

  /** Conversely, only such text is accepted, and with that value. */
  lemma {:induction false} TryParseIntOnly(text: string)
    requires TryParseInt(text).Some?
    ensures exists w: string, sign: string, digits: string ::
              text == w + sign + digits && AllSpace(w) && (sign == "" || sign == "-" || sign == "+") &&
              digits != [] && AllDigits(digits) && TryParseInt(text).value == SignedValue(sign, digits)
  {
    if text != [] && IsSpace(text[0]) {
      TryParseIntOnly(text[1..]);
      var w: string, sign: string, digits: string :|
        text[1..] == w + sign + digits && AllSpace(w) && (sign == "" || sign == "-" || sign == "+") &&
        digits != [] && AllDigits(digits) && TryParseInt(text[1..]).value == SignedValue(sign, digits);
      assert text == [text[0]] + w + sign + digits;
      assert AllSpace([text[0]] + w);
    } else {
      var signed := |text| > 0 && (text[0] == '-' || text[0] == '+');
      var sign := if signed then text[..1] else [];
      var digits := if signed then text[1..] else text;
      assert text == [] + sign + digits;
      assert AllSpace([]);
    }
  }

  /** In particular digits whose value is out of range are rejected rather
      than wrapped around, with or without a minus sign. */
  lemma OverflowRejected(digits: string)
    requires digits != [] && AllDigits(digits) && DigitsValue(digits) > IntMax
    ensures TryParseInt(digits) == None
    ensures DigitsValue(digits) > -IntMin ==> TryParseInt("-" + digits) == None
  {
    TryParseIntAccepts("", "", digits);
    assert "" + "" + digits == digits;
    TryParseIntAccepts("", "-", digits);
    assert "" + "-" + digits == "-" + digits;
  }

  /** The decimal digits of a natural number, without leading zeros. */
  function NatToString(n: nat): (s: string)
    ensures |s| > 0 && AllDigits(s) && DigitsValue(s) == n && IsDigit(s[0])
  {
    if n < 10 then
      assert [DigitChar(n)][..0] == [];
      [DigitChar(n)]
    else
      var s := NatToString(n / 10) + [DigitChar(n % 10)];
      assert s[..|s| - 1] == NatToString(n / 10);
      s
  }

  /** How `operator<<` writes an int: a minus sign for negatives, then the digits. */
  function IntToString(n: int): (s: string)
    ensures |s| > 0 && (s[0] == '-' || IsDigit(s[0]))
  {
    if n < 0 then "-" + NatToString(-n) else NatToString(n)
  }

  /** Every int written by the savers is read back by `tryParseInt`. */
  lemma ParseIntToString(n: int)
    requires IntMin <= n <= IntMax
    ensures TryParseInt(IntToString(n)) == Some(n)
  {
    var s := IntToString(n);
    assert TryParseInt(s) == ParseSigned(s);
    if n < 0 {
      assert s[1..] == NatToString(-n);
    }
  }

  /** A printed int contains no character the codec treats specially. */
  lemma IntToStringPlain(n: int)
    ensures Backslash !in IntToString(n) && Tab !in IntToString(n) && Newline !in IntToString(n)
    ensures Escape(IntToString(n)) == IntToString(n)
  {
    if n < 0 {
      DigitsArePlain(NatToString(-n));
    } else {
      DigitsArePlain(NatToString(n));
    }
    EscapeKeepsPlain(IntToString(n));
  }

  // ---------------------------------------------------------------------
  // Bytes: a `std::string` holds the UTF-8 bytes of its text, and
  // `length` and `substr` count those bytes, not characters.

  type byte = b: int | 0 <= b < 0x100

  /** A byte that can only continue a multi-byte character. */
  predicate IsContinuation(b: byte) { 0x80 <= b < 0xC0 }

  /** The UTF-8 form of one character. */
  function CharUtf8(c: char): (bs: seq<byte>)
    ensures 1 <= |bs| <= 4
    ensures |bs| == 1 <==> c as int < 0x80
    ensures |bs| == 1 ==> bs[0] == c as int
    ensures !IsContinuation(bs[0])
    ensures forall k :: 1 <= k < |bs| ==> IsContinuation(bs[k])
  {
    var n := c as int;
    if n < 0x80 then [n]
    else if n < 0x800 then [0xC0 + n / 0x40, 0x80 + n % 0x40]
    else if n < 0x1_0000 then [0xE0 + n / 0x1000, 0x80 + n / 0x40 % 0x40, 0x80 + n % 0x40]
    else [0xF0 + n / 0x4_0000, 0x80 + n / 0x1000 % 0x40, 0x80 + n / 0x40 % 0x40, 0x80 + n % 0x40]
  }

  /** The bytes of a text: at least one per character, and a non-empty text
      never starts in the middle of a character. */
  function Utf8(s: string): (bs: seq<byte>)
    ensures |bs| >= |s|
    ensures s != [] ==> !IsContinuation(bs[0])
  {
    if s == [] then [] else CharUtf8(s[0]) + Utf8(s[1..])
  }

  /** Every character is in the ASCII range. */
  predicate IsAscii(s: string) {
    forall i :: 0 <= i < |s| ==> s[i] as int < 0x80
  }

  lemma {:induction false} Utf8Append(a: string, b: string)
    ensures Utf8(a + b) == Utf8(a) + Utf8(b)
  {
    if a == [] {
      assert a + b == b;
    } else {
      assert (a + b)[1..] == a[1..] + b;
      Utf8Append(a[1..], b);
    }
  }

  /** An ASCII text has one byte per character, equal to its code. */
  lemma {:induction false} AsciiUtf8(s: string)
    requires IsAscii(s)
    ensures |Utf8(s)| == |s|
    ensures forall i :: 0 <= i < |s| ==> Utf8(s)[i] == s[i] as int
  {
    if s != [] {
      AsciiUtf8(s[1..]);
    }
  }
}
