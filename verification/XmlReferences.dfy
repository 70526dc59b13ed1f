/** What references in a text stand for, by name and by number, and that it does not depend on what follows
    the text. */
module XmlReferences {
  import opened Basics
  import opened XmlText

  // ---- references by name and by number ------------------------------------------------

  lemma Named(word: string, out: string, t: string, stop: char)
    requires (word, out) in {("&amp;", "&"), ("&apos;", "'"), ("&quot;", "\""), ("&gt;", ">"), ("&lt;", "<")}
    requires stop != '&'
    ensures Expand(word + t, stop) == Prepend(out, Expand(t, stop))
  {
    hide Expand, Numeric;
    var s := word + t;
    assert s[0] == '&' && s[1] == word[1] && s[2] == word[2] && word <= s;
    ExpandStep(word, t, out, stop);
  }

  lemma NamedExpands(t: string, stop: char)
    requires stop != '&'
    ensures Expand("&amp;" + t, stop) == Prepend("&", Expand(t, stop))
    ensures Expand("&apos;" + t, stop) == Prepend("'", Expand(t, stop))
    ensures Expand("&quot;" + t, stop) == Prepend("\"", Expand(t, stop))
    ensures Expand("&gt;" + t, stop) == Prepend(">", Expand(t, stop))
    ensures Expand("&lt;" + t, stop) == Prepend("<", Expand(t, stop))
  {
    hide Expand, Numeric;
    Named("&amp;", "&", t, stop);
    Named("&apos;", "'", t, stop);
    Named("&quot;", "\"", t, stop);
    Named("&gt;", ">", t, stop);
    Named("&lt;", "<", t, stop);
  }

  /** Any other character stands for itself, also an '&' that begins no reference. */
  lemma OtherExpands(c: char, t: string, stop: char)
    requires c != '\0' && c != stop
    requires var s := [c] + t;
             !("&amp;" <= s || "&apos;" <= s || "&quot;" <= s || "&gt;" <= s || "&lt;" <= s || "&#" <= s)
    ensures Expand([c] + t, stop) == Prepend([c], Expand(t, stop))
  {
    hide Expand, Numeric;
    assert "&#x"[..2] == "&#";
    assert "&#x" <= [c] + t ==> "&#" <= [c] + t;
    assert ([c] + t)[0] == c;
    ExpandStep([c], t, [c], stop);
  }

  lemma NotHex(s: string, t: string)
    requires (forall i :: 0 <= i < |s| ==> IsDigit(s[i])) && (s == "" ==> At(t, 0) != 'x')
    ensures At(s + t, 0) != 'x'
  {
    assert s == "" ==> s + t == t;
  }

  lemma {:induction false} DigitCountOf(s: string, t: string)
    requires (forall i :: 0 <= i < |s| ==> IsDigit(s[i])) && !IsDigit(At(t, 0))
    ensures DigitCount(s + t) == |s|
  {
    if s == "" {
      assert s + t == t;
    } else {
      assert (s + t)[1..] == s[1..] + t;
      DigitCountOf(s[1..], t);
    }
  }

  lemma UnendedNumber(open: string, s: string, t: string, radix: nat)
    requires (forall i :: 0 <= i < |s| ==> IsDigit(s[i])) && !IsDigit(At(t, 0)) && At(t, 0) != ';'
    ensures Numeric(open + (s + t), |open|, radix) == Malformed
  {
    hide CodeOf, DigitCount, Utf8;
    var u := open + (s + t);
    assert u[|open|..] == s + t;
    DigitCountOf(s, t);
    assert At(u, |open| + |s|) == At(t, 0);
  }

  lemma ExpandFails(t: string, stop: char)
    requires !Stops(t, stop) && ReferenceAt(t) == Malformed
    ensures Expand(t, stop) == Failed
  {
    hide ReferenceAt;
  }

  /** A numeric reference must end in ';'. */
  lemma BrokenNumber(hex: bool, s: string, t: string, stop: char)
    requires (forall i :: 0 <= i < |s| ==> IsDigit(s[i])) && !IsDigit(At(t, 0)) && At(t, 0) != ';' && stop != '&'
    requires !hex && s == "" ==> At(t, 0) != 'x'
    ensures Expand((if hex then "&#x" else "&#") + (s + t), stop) == Failed
  {
    hide Expand, Numeric, IsDigit;
    var open := if hex then "&#x" else "&#";
    var u := open + (s + t);
    assert u[0] == '&' && u[1] == '#' && "&#" <= u;
    CodeAt(u);
    assert "&#x" <= u <==> hex by {
      if !hex {
        assert u[2..] == s + t;
        assert "&#x" <= u ==> u[2] == 'x' == At(s + t, 0);
        NotHex(s, t);
      }
    }
    UnendedNumber(open, s, t, if hex then 16 else 10);
    ExpandFails(u, stop);
  }

  /** A number in decimal or hexadecimal digits, the letters in lower or upper case. */
  function Digits(n: nat, radix: nat, upper: bool): (s: string)
    requires 2 <= radix <= 16
    ensures s != ""
  {
    var d := (if upper then "0123456789ABCDEF" else "0123456789abcdef")[n % radix];
    if n < radix then [d] else Digits(n / radix, radix, upper) + [d]
  }

  lemma DigitExact(d: nat)
    requires d < 16
    ensures IsDigit("0123456789abcdef"[d]) && DigitValue("0123456789abcdef"[d]) == d
    ensures IsDigit("0123456789ABCDEF"[d]) && DigitValue("0123456789ABCDEF"[d]) == d
  {
  }

  lemma {:induction false} CodePrefix(s: string, t: string, n: nat, radix: nat)
    requires n <= |s| && n <= |t| && s[..n] == t[..n] && forall i :: 0 <= i < n ==> IsDigit(s[i])
    ensures (forall i :: 0 <= i < n ==> IsDigit(t[i])) && CodeOf(s, n, radix) == CodeOf(t, n, radix)
    decreases n
  {
    assert forall i :: 0 <= i < n ==> t[i] == t[..n][i] == s[..n][i] == s[i];
    if n > 0 {
      assert s[..n - 1] == s[..n][..n - 1] && t[..n - 1] == t[..n][..n - 1];
      CodePrefix(s, t, n - 1, radix);
    }
  }

  lemma {:induction false} ZerosCode(zeros: string, n: nat, radix: nat)
    requires (forall i :: 0 <= i < |zeros| ==> zeros[i] == '0') && n <= |zeros|
    ensures CodeOf(zeros, n, radix) == 0
    decreases n
  {
    if n > 0 {
      ZerosCode(zeros, n - 1, radix);
    }
  }

  lemma ModSame(x: nat, k: nat)
    ensures (x + WORD * k) % WORD == x % WORD
  {
    ModIs(x + WORD * k, WORD, k + x / WORD, x % WORD);
  }

  lemma WrapDigit(n: nat, radix: nat)
    requires radix in {10, 16}
    ensures (n / radix % WORD * radix + n % radix) % WORD == n % WORD
  {
    var a, d := n / radix, n % radix;
    var q := a / WORD;
    assert n == a * radix + d && a == q * WORD + a % WORD;
    assert n == (a % WORD * radix + d) + WORD * (q * radix);
    ModSame(a % WORD * radix + d, q * radix);
  }

  lemma CodeLast(s: string, c: char, radix: nat)
    requires (forall i :: 0 <= i < |s| ==> IsDigit(s[i])) && IsDigit(c)
    ensures (forall i :: 0 <= i < |s + [c]| ==> IsDigit((s + [c])[i]))
    ensures CodeOf(s + [c], |s| + 1, radix) == (CodeOf(s, |s|, radix) * radix + DigitValue(c)) % WORD
  {
    var t := s + [c];
    assert t[..|s|] == s[..|s|];
    CodePrefix(s, t, |s|, radix);
    assert t[|s|] == c;
  }

  lemma DigitsLast(zeros: string, n: nat, radix: nat, upper: bool) returns (c: char)
    requires radix in {10, 16}
    ensures IsDigit(c) && DigitValue(c) == n % radix
    ensures zeros + Digits(n, radix, upper) ==
            (if n < radix then zeros else zeros + Digits(n / radix, radix, upper)) + [c]
  {
    hide DigitValue, IsDigit;
    DigitExact(n % radix);
    c := (if upper then "0123456789ABCDEF" else "0123456789abcdef")[n % radix];
  }

  /** The digits of a number, with zeros before them, are read as the number modulo 2^64. */
  lemma {:induction false} DigitsBack(zeros: string, n: nat, radix: nat, upper: bool)
    requires (forall i :: 0 <= i < |zeros| ==> zeros[i] == '0') && radix in {10, 16}
    ensures var s := zeros + Digits(n, radix, upper);
            (forall i :: 0 <= i < |s| ==> IsDigit(s[i])) && CodeOf(s, |s|, radix) == n % 0x1_0000_0000_0000_0000
    decreases n
  {
    hide CodeOf, Digits, DigitValue;
    var c := DigitsLast(zeros, n, radix, upper);
    WrapDigit(n, radix);
    if n < radix {
      ZerosCode(zeros, |zeros|, radix);
      CodeLast(zeros, c, radix);
    } else {
      DigitsBack(zeros, n / radix, radix, upper);
      CodeLast(zeros + Digits(n / radix, radix, upper), c, radix);
    }
  }

  lemma NumericBack(open: string, zeros: string, n: nat, radix: nat, upper: bool, t: string)
    requires (forall i :: 0 <= i < |zeros| ==> zeros[i] == '0') && radix in {10, 16}
    ensures var s := zeros + Digits(n, radix, upper);
            var code := n % 0x1_0000_0000_0000_0000;
            Numeric(open + (s + (";" + t)), |open|, radix) ==
              if code < 0x110000 then Reference(Utf8(code), |open + (s + ";")|) else Malformed
  {
    hide CodeOf, DigitCount, Utf8, Digits;
    var s := zeros + Digits(n, radix, upper);
    var u := s + (";" + t);
    assert (open + u)[|open|..] == u;
    DigitsBack(zeros, n, radix, upper);
    DigitCountOf(s, ";" + t);
    CodePrefix(s, u, |s|, radix);
    assert (open + u)[|open| + |s|] == ';';
  }

  lemma ReferenceNumber(open: string, s: string, t: string)
    requires open in {"&#", "&#x"} && s != "" && IsDigit(s[0])
    ensures var u := open + (s + (";" + t));
            u[0] == '&' && ReferenceAt(u) == Numeric(u, |open|, if open == "&#x" then 16 else 10)
  {
    hide Numeric;
    var u := open + (s + (";" + t));
    assert u[0] == '&' && u[1] == '#' && open <= u;
    if open == "&#" {
      assert u[2] == s[0];
    }
  }

  /** A numeric reference, in decimal or in hexadecimal: it stands for the code point that is written,
      modulo 2^64, and is refused when that is no code point. */
  lemma NumberExpands(zeros: string, n: nat, hex: bool, upper: bool, t: string, stop: char)
    requires (forall i :: 0 <= i < |zeros| ==> zeros[i] == '0') && stop != '&'
    ensures var written := (if hex then "&#x" else "&#") + (zeros + Digits(n, if hex then 16 else 10, upper) + ";");
            var code := n % 0x1_0000_0000_0000_0000;
            Expand(written + t, stop) == if code < 0x110000 then Prepend(Utf8(code), Expand(t, stop)) else Failed
  {
    hide Expand, Numeric, Utf8, Digits;
    var open, radix := if hex then "&#x" else "&#", if hex then 16 else 10;
    var s := zeros + Digits(n, radix, upper);
    var written := open + (s + ";");
    var u := open + (s + (";" + t));
    assert written + t == u;
    NumericBack(open, zeros, n, radix, upper, t);
    DigitsBack(zeros, n, radix, upper);
    ReferenceNumber(open, s, t);
    if n % 0x1_0000_0000_0000_0000 < 0x110000 {
      ExpandStep(written, t, Utf8(n % 0x1_0000_0000_0000_0000), stop);
    } else {
      ExpandFails(u, stop);
    }
  }

  // ---- text in front of its stop character ----------------------------------------------

  /** Neither a stop character nor a terminator occurs in a reference. */
  predicate Foreign(c: char) {
    c in {'\0', '<', '\'', '"'}
  }

  lemma WordLocal(word: string, a: string, b: string)
    requires (forall i :: 0 <= i < |word| ==> !Foreign(word[i])) && (b == "" || Foreign(b[0]))
    ensures word <= a + b <==> word <= a
  {
    if |word| > |a| {
      assert b != "" ==> (a + b)[|a|] == b[0];
    } else {
      assert (a + b)[..|word|] == a[..|word|];
    }
  }

  lemma {:induction false} DigitsLocal(a: string, b: string)
    requires b == "" || Foreign(b[0])
    ensures DigitCount(a + b) == DigitCount(a)
  {
    if a == "" {
      assert a + b == b;
    } else {
      assert (a + b)[1..] == a[1..] + b;
      DigitsLocal(a[1..], b);
    }
  }

  lemma NumericLocal(a: string, b: string, skip: nat, radix: nat)
    requires (b == "" || Foreign(b[0])) && skip <= |a|
    ensures Numeric(a + b, skip, radix) == Numeric(a, skip, radix)
  {
    hide DigitCount, CodeOf, Utf8;
    assert (a + b)[skip..] == a[skip..] + b;
    var n := DigitCount(a[skip..]);
    DigitsLocal(a[skip..], b);
    assert (a[skip..] + b)[..n] == a[skip..][..n];
    CodePrefix(a[skip..], a[skip..] + b, n, radix);
    assert At(a + b, skip + n) == ';' <==> At(a, skip + n) == ';';
  }

  /** A reference does not depend on what stands behind a stop character. */
  lemma ReferenceLocal(a: string, b: string)
    requires b == "" || Foreign(b[0])
    ensures ReferenceAt(a + b) == ReferenceAt(a)
  {
    hide Numeric;
    WordLocal("&amp;", a, b);
    WordLocal("&apos;", a, b);
    WordLocal("&quot;", a, b);
    WordLocal("&gt;", a, b);
    WordLocal("&lt;", a, b);
    WordLocal("&#x", a, b);
    WordLocal("&#", a, b);
    if "&#x" <= a {
      NumericLocal(a, b, 3, 16);
    } else if "&#" <= a {
      NumericLocal(a, b, 2, 10);
    }
  }

  lemma StopIsForeign(t: string, stop: char)
    requires Stops(t, stop) && stop in {'<', '\'', '"'}
    ensures t == "" || Foreign(t[0])
  {
  }

  lemma ExpandUnfold(t: string, stop: char) returns (out: string, length: nat)
    requires !Stops(t, stop) && Expand(t, stop).Expanded?
    ensures 0 < length <= |t| && (length == 1 ==> out == t[..1])
    ensures ReferenceAt(t) == if length == 1 then NoReference else Reference(out, length)
    ensures Expand(t[length..], stop).Expanded? && Expand(t, stop) == Prepend(out, Expand(t[length..], stop))
  {
    hide ReferenceAt;
    ReferenceShrinks(t);
    match ReferenceAt(t)
    case NoReference => out, length := [t[0]], 1;
    case Reference(out', length') => out, length := out', length';
    case Malformed =>
  }

  lemma StopsHead(t: string, b: string, stop: char)
    requires !Stops(t, stop)
    ensures t != "" && !Stops(t + b, stop)
  {
  }

  /** What a text expands to up to its end, it expands to in front of a stop character. */
  lemma {:induction false} ExpandContinues(a: string, value: string, stop: char, b: string)
    requires Expand(a, stop) == Expanded(value, "") && Stops(b, stop) && stop in {'<', '\'', '"'}
    ensures Expand(a + b, stop) == Expanded(value, b)
    decreases |a|
  {
    hide ReferenceAt, Expand, Stops;
    if Stops(a, stop) {
      ExpandStops(a, stop);
      ExpandStops(b, stop);
      assert a + b == b;
    } else {
      var out, length := ExpandUnfold(a, stop);
      StopIsForeign(b, stop);
      ReferenceLocal(a, b);
      StopsHead(a, b, stop);
      ExpandContinues(a[length..], Expand(a[length..], stop).out, stop, b);
      assert a + b == a[..length] + (a[length..] + b);
      ExpandStep(a[..length], a[length..] + b, out, stop);
    }
  }

  lemma NothingExpands(stop: char)
    ensures Stops("", stop) && Expand("", stop) == Expanded("", "")
  {
  }

  lemma StopsBack(raw: string, b: string, stop: char)
    requires raw != "" && !Stops(raw + b, stop)
    ensures !Stops(raw, stop)
  {
    assert (raw + b)[0] == raw[0];
  }

  /** The text up to the stop character, on its own, expands to the same. */
  lemma {:induction false} ExpandSplit(t: string, stop: char) returns (raw: string)
    requires Expand(t, stop).Expanded? && stop in {'<', '\'', '"'}
    ensures t == raw + Expand(t, stop).rest && Expand(raw, stop) == Expanded(Expand(t, stop).out, "")
    decreases |t|
  {
    hide ReferenceAt, Expand, Stops;
    if Stops(t, stop) {
      raw := "";
      ExpandStops(t, stop);
      NothingExpands(stop);
    } else {
      var out, length := ExpandUnfold(t, stop);
      var more := ExpandSplit(t[length..], stop);
      raw := t[..length] + more;
      var b := Expand(t, stop).rest;
      ExpandRest(t, stop);
      StopIsForeign(b, stop);
      assert t == raw + b;
      ReferenceLocal(raw, b);
      StopsBack(raw, b, stop);
      ExpandStep(t[..length], more, out, stop);
    }
  }

  lemma DigitsAreNotForeign(t: string, skip: nat)
    requires skip <= |t|
    ensures forall i :: skip <= i < skip + DigitCount(t[skip..]) ==> !Foreign(t[i])
  {
    assert forall i :: skip <= i < |t| ==> t[i] == t[skip..][i - skip];
  }

  lemma NumberChars(t: string, skip: nat, radix: nat)
    requires skip <= |t| && (forall i :: 0 <= i < skip ==> !Foreign(t[i])) && Numeric(t, skip, radix).Reference?
    ensures var n := Numeric(t, skip, radix).length; n <= |t| && forall i :: 0 <= i < n ==> !Foreign(t[i])
  {
    hide DigitCount, CodeOf, Utf8;
    DigitsAreNotForeign(t, skip);
    var n := DigitCount(t[skip..]);
    assert At(t, skip + n) == ';';
  }

  lemma ReferenceChars(t: string)
    ensures var r := ReferenceAt(t);
            r.Reference? ==> r.length <= |t| && forall i :: 0 <= i < r.length ==> !Foreign(t[i])
  {
    hide Numeric;
    ReferenceShrinks(t);
    assert "&#x"[..2] == "&#";
    if ReferenceAt(t).Reference? && "&#" <= t {
      CodeAt(t);
      NumberChars(t, if "&#x" <= t then 3 else 2, if "&#x" <= t then 16 else 10);
    }
  }

  lemma ForeignStop(stop: char)
    requires stop in {'<', '\'', '"'}
    ensures Foreign(stop) && Foreign('\0')
  {
  }

  /** Text that expands to its end holds neither the stop character nor a terminator. */
  lemma {:induction false} RawChars(raw: string, stop: char)
    requires Expand(raw, stop).Expanded? && Expand(raw, stop).rest == "" && stop in {'<', '\'', '"'}
    ensures forall i :: 0 <= i < |raw| ==> raw[i] != '\0' && raw[i] != stop
    decreases |raw|
  {
    hide ReferenceAt, Expand, Foreign;
    if Stops(raw, stop) {
      ExpandStops(raw, stop);
    } else {
      var out, length := ExpandUnfold(raw, stop);
      ReferenceChars(raw);
      RawChars(raw[length..], stop);
      ForeignStop(stop);
      forall i | 0 <= i < |raw| ensures raw[i] != '\0' && raw[i] != stop {
        if i >= length {
          assert raw[i] == raw[length..][i - length];
        }
      }
    }
  }
}
