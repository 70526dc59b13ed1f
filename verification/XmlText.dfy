/** Character references: expansion in the parser (skip_and_expand_character_refs), escaping in
    the printer (copy_and_expand_chars). Bytes are characters below 256; '\0' ends a text. */
module XmlText {

  // ---- UTF-8 -------------------------------------------------------------------------

  const CODE_LIMIT: int := 0x110000

  /** The byte sequence for a code point, as in section 3 of RFC 3629. */
  function Utf8(code: nat): (s: string)
    requires code < CODE_LIMIT
    ensures 1 <= |s| <= 4
  {
    if code < 0x80 then [code as char]
    else if code < 0x800 then [(0xC0 + code / 64) as char, (0x80 + code % 64) as char]
    else if code < 0x10000 then
      [(0xE0 + code / 4096) as char, (0x80 + code / 64 % 64) as char, (0x80 + code % 64) as char]
    else
      [(0xF0 + code / 262144) as char, (0x80 + code / 4096 % 64) as char,
       (0x80 + code / 64 % 64) as char, (0x80 + code % 64) as char]
  }

  /** Reading the bytes back: the lead byte tells the length, each further byte adds six bits. */
  function FromUtf8(s: string): int
    requires 1 <= |s| <= 4
  {
    var lead := s[0] as int;
    if |s| == 1 then lead
    else if |s| == 2 then (lead - 0xC0) * 64 + (s[1] as int - 0x80)
    else if |s| == 3 then ((lead - 0xE0) * 64 + (s[1] as int - 0x80)) * 64 + (s[2] as int - 0x80)
    else (((lead - 0xF0) * 64 + (s[1] as int - 0x80)) * 64 + (s[2] as int - 0x80)) * 64 + (s[3] as int - 0x80)
  }

  lemma Utf8RoundTrip(code: nat)
    requires code < CODE_LIMIT
    ensures FromUtf8(Utf8(code)) == code
    ensures forall i :: 1 <= i < |Utf8(code)| ==> 0x80 <= Utf8(code)[i] as int < 0xC0
    ensures var lead := Utf8(code)[0] as int;
            if code < 0x80 then |Utf8(code)| == 1 && lead == code
            else if code < 0x800 then |Utf8(code)| == 2 && 0xC0 <= lead < 0xE0
            else if code < 0x10000 then |Utf8(code)| == 3 && 0xE0 <= lead < 0xF0
            else |Utf8(code)| == 4 && 0xF0 <= lead < 0xF8
  {
    assert code / 262144 == code / 4096 / 64 && code / 4096 == code / 64 / 64;
    assert code / 4096 == 64 * (code / 262144) + code / 4096 % 64;
    assert code / 64 == 64 * (code / 4096) + code / 64 % 64;
  }

  // ---- references --------------------------------------------------------------------

  function At(t: string, i: nat): char {
    if i < |t| then t[i] else '\0'
  }

  predicate IsDigit(c: char) {
    '0' <= c <= '9' || 'a' <= c <= 'f' || 'A' <= c <= 'F'
  }

  function DigitValue(c: char): nat
    requires IsDigit(c)
  {
    if c <= '9' then c as int - '0' as int
    else if c <= 'F' then c as int - 'A' as int + 10
    else c as int - 'a' as int + 10
  }

  function DigitCount(t: string): (n: nat)
    ensures n <= |t| && (forall i :: 0 <= i < n ==> IsDigit(t[i])) && (n < |t| ==> !IsDigit(t[n]))
  {
    if t == "" || !IsDigit(t[0]) then 0 else 1 + DigitCount(t[1..])
  }

  const WORD: int := 0x1_0000_0000_0000_0000

  /** The number read from n digits; it wraps like the unsigned 64-bit variable. The decimal
      form accepts the letters a to f as well. */
  function CodeOf(t: string, n: nat, radix: nat): (code: nat)
    requires n <= |t| && forall i :: 0 <= i < n ==> IsDigit(t[i])
    ensures code < WORD
  {
    if n == 0 then 0 else (CodeOf(t, n - 1, radix) * radix + DigitValue(t[n - 1])) % WORD
  }

  datatype Reference = NoReference | Reference(out: string, length: nat) | Malformed

  function Numeric(t: string, skip: nat, radix: nat): (r: Reference)
    requires skip <= |t|
    ensures !r.NoReference?
  {
    var n := DigitCount(t[skip..]);
    var code := CodeOf(t[skip..], n, radix);
    if code >= CODE_LIMIT || At(t, skip + n) != ';' then Malformed
    else Reference(Utf8(code), skip + n + 1)
  }

  /** The reference at the front of the text, if there is one. */
  function ReferenceAt(t: string): Reference {
    if "&amp;" <= t then Reference("&", 5)
    else if "&apos;" <= t then Reference("'", 6)
    else if "&quot;" <= t then Reference("\"", 6)
    else if "&gt;" <= t then Reference(">", 4)
    else if "&lt;" <= t then Reference("<", 4)
    else if "&#x" <= t then Numeric(t, 3, 16)
    else if "&#" <= t then Numeric(t, 2, 10)
    else NoReference
  }

  lemma {:induction false} CodeBound(t: string, n: nat, radix: nat)
    requires n <= |t| && (forall i :: 0 <= i < n ==> IsDigit(t[i])) && radix <= 16
    ensures n == 0 ==> CodeOf(t, n, radix) == 0
    ensures n == 1 ==> CodeOf(t, n, radix) < 16
    ensures n == 2 ==> CodeOf(t, n, radix) < 256
    ensures n == 3 ==> CodeOf(t, n, radix) < 4096
    decreases n
  {
    if n > 0 {
      CodeBound(t, n - 1, radix);
      var c := CodeOf(t, n - 1, radix);
      assert c * radix <= c * 16;
      assert (c * radix + DigitValue(t[n - 1])) % WORD <= c * radix + DigitValue(t[n - 1]);
    }
  }

  lemma NumericShrinks(t: string, skip: nat, radix: nat)
    requires 2 <= skip <= |t| && radix <= 16
    ensures var r := Numeric(t, skip, radix); r.Reference? ==> 1 <= |r.out| < r.length <= |t|
    ensures var n := DigitCount(t[skip..]);
            CodeOf(t[skip..], n, radix) < CODE_LIMIT ==> |Utf8(CodeOf(t[skip..], n, radix))| <= skip + n
  {
    CodeBound(t[skip..], DigitCount(t[skip..]), radix);
  }

  /** No reference grows: its expansion is shorter than what it takes to write it, without the ';'. */
  lemma ReferenceShrinks(t: string)
    ensures var r := ReferenceAt(t); r.Reference? ==> 1 <= |r.out| < r.length <= |t|
  {
    if "&#x" <= t {
      NumericShrinks(t, 3, 16);
    } else if "&#" <= t {
      NumericShrinks(t, 2, 10);
    }
  }

  /** A reference does not reach over a terminator. */
  lemma ReferencePlain(t: string, nul: nat)
    requires nul < |t| && t[nul] == '\0'
    ensures var r := ReferenceAt(t); r.Reference? ==> r.length <= nul
  {
  }

  /** How far a reference that turns out to be malformed was read: up to the first character that is
      not a digit. */
  function ReadBefore(t: string): (n: nat)
    ensures n <= |t|
  {
    if "&#x" <= t then 3 + DigitCount(t[3..])
    else if "&#" <= t then 2 + DigitCount(t[2..])
    else 0
  }

  lemma DigitsBefore(t: string, skip: nat, nul: nat)
    requires skip <= nul < |t| && !IsDigit(t[nul])
    ensures skip + DigitCount(t[skip..]) <= nul
  {
    assert t[skip..][nul - skip] == t[nul];
  }

  lemma MalformedPlain(t: string, nul: nat)
    requires nul < |t| && t[nul] == '\0' && ReferenceAt(t) == Malformed
    ensures 0 < ReadBefore(t) <= nul
  {
    assert "&#"[0] == '&' && "&#"[1] == '#' && "&#x"[2] == 'x';
    assert "&#" <= t && nul >= 2;
    if "&#x" <= t {
      DigitsBefore(t, 3, nul);
    } else {
      DigitsBefore(t, 2, nul);
    }
  }

  // ---- expansion ---------------------------------------------------------------------

  datatype Expansion = Expanded(out: string, rest: string) | Failed

  function Prepend(s: string, e: Expansion): Expansion {
    match e
    case Expanded(out, rest) => Expanded(s + out, rest)
    case Failed => Failed
  }

  predicate Stops(t: string, stop: char) {
    t == "" || t[0] == '\0' || t[0] == stop
  }

  /** Everything up to the stop character, with references replaced. */
  function Expand(t: string, stop: char): Expansion
    decreases |t|
  {
    if Stops(t, stop) then Expanded("", t)
    else
      ReferenceShrinks(t);
      match ReferenceAt(t)
      case NoReference => Prepend([t[0]], Expand(t[1..], stop))
      case Reference(out, length) => Prepend(out, Expand(t[length..], stop))
      case Malformed => Failed
  }

  // ---- escaping ----------------------------------------------------------------------

  function EscapeChar(c: char, noexpand: char): string {
    if c == noexpand then [c]
    else match c
      case '<' => "&lt;"
      case '>' => "&gt;"
      case '\'' => "&apos;"
      case '"' => "&quot;"
      case '&' => "&amp;"
      case _ => [c]
  }

  function Escape(s: string, noexpand: char): string {
    if s == "" then "" else EscapeChar(s[0], noexpand) + Escape(s[1..], noexpand)
  }

  predicate Plain(s: string) {
    forall i :: 0 <= i < |s| ==> s[i] != '\0'
  }

  lemma ExpandStops(t: string, stop: char)
    requires Stops(t, stop)
    ensures Expand(t, stop) == Expanded("", t)
  {
  }

  lemma ExpandStep(front: string, tail: string, out: string, stop: char)
    requires front != "" && !Stops(front + tail, stop)
    requires ReferenceAt(front + tail) == if |front| == 1 then NoReference else Reference(out, |front|)
    requires |front| == 1 ==> out == front
    ensures Expand(front + tail, stop) == Prepend(out, Expand(tail, stop))
  {
    hide ReferenceAt;
    assert (front + tail)[|front|..] == tail;
    if |front| == 1 {
      assert [(front + tail)[0]] == out;
    }
  }

  lemma NoAmpersand(t: string)
    requires t != "" && t[0] != '&'
    ensures ReferenceAt(t) == NoReference
  {
    assert "&amp;"[0] == '&' && "&apos;"[0] == '&' && "&quot;"[0] == '&' && "&gt;"[0] == '&';
    assert "&lt;"[0] == '&' && "&#x"[0] == '&' && "&#"[0] == '&';
  }

  lemma EscapedChar(c: char, noexpand: char, stop: char, tail: string)
    requires c != '\0' && noexpand in {'\0', '\'', '"'} && stop in {'<', '\'', '"'} && stop != noexpand
    ensures var e := EscapeChar(c, noexpand);
            e != "" && !Stops(e + tail, stop) &&
            ReferenceAt(e + tail) == if |e| == 1 then NoReference else Reference([c], |e|)
    ensures |EscapeChar(c, noexpand)| == 1 ==> EscapeChar(c, noexpand) == [c]
  {
    var e := EscapeChar(c, noexpand);
    if |e| == 1 {
      assert (e + tail)[0] == c && c != '&';
      NoAmpersand(e + tail);
    } else {
      assert e <= e + tail;
      assert (e + tail)[0] == '&' && (e + tail)[1] == e[1] && (e + tail)[2] == e[2];
    }
  }

  /** Escaping and then expanding gives the string back, up to the stop character. */
  lemma {:induction false} ExpandEscape(s: string, noexpand: char, stop: char, rest: string)
    requires Plain(s) && Stops(rest, stop)
    requires noexpand in {'\0', '\'', '"'} && stop in {'<', '\'', '"'} && stop != noexpand
    ensures Expand(Escape(s, noexpand) + rest, stop) == Expanded(s, rest)
    decreases |s|
  {
    hide ReferenceAt, EscapeChar, Expand, Stops;
    var t := Escape(s, noexpand) + rest;
    if s == "" {
      assert t == rest;
      ExpandStops(rest, stop);
    } else {
      ExpandEscape(s[1..], noexpand, stop, rest);
      var e := EscapeChar(s[0], noexpand);
      var tail := Escape(s[1..], noexpand) + rest;
      assert t == e + tail;
      EscapedChar(s[0], noexpand, stop, tail);
      ExpandStep(e, tail, [s[0]], stop);
      assert [s[0]] + s[1..] == s;
    }
  }

  /** Escaped text holds no '<' and '>', and no quote but the one that may stand. */
  lemma {:induction false} EscapeSafe(s: string, noexpand: char)
    requires noexpand in {'\0', '\'', '"'}
    ensures forall i :: 0 <= i < |Escape(s, noexpand)| ==>
              var c := Escape(s, noexpand)[i]; c != '<' && c != '>' && (c in {'\'', '"'} ==> c == noexpand)
  {
    if s != "" {
      EscapeSafe(s[1..], noexpand);
    }
  }

  lemma CodeAt(t: string)
    requires "&#" <= t
    ensures ReferenceAt(t) == if "&#x" <= t then Numeric(t, 3, 16) else Numeric(t, 2, 10)
    ensures ReadBefore(t) == if "&#x" <= t then 3 + DigitCount(t[3..]) else 2 + DigitCount(t[2..])
  {
    hide Numeric, DigitCount;
    assert "&#"[1] == '#';
  }

  lemma ExpandRest(t: string, stop: char)
    ensures var e := Expand(t, stop); e.Expanded? ==> |e.rest| <= |t|
    ensures var e := Expand(t, stop); e.Expanded? && !Stops(t, stop) ==> |e.rest| < |t|
    ensures var e := Expand(t, stop); e.Expanded? ==> Stops(e.rest, stop)
    decreases |t|
  {
    hide ReferenceAt;
    if !Stops(t, stop) {
      ReferenceShrinks(t);
      match ReferenceAt(t)
      case NoReference => ExpandRest(t[1..], stop);
      case Reference(out, length) => ExpandRest(t[length..], stop);
      case Malformed =>
    }
  }

  // ---- expansion in place ------------------------------------------------------------

  /** The buffer holds a terminating '\0' at or after this position. */
  ghost predicate Terminated(text: array<char>, at: nat)
    reads text
  {
    exists end :: at <= end < text.Length && text[end] == '\0'
  }

  /** Compares character by character and stops at the first difference, so that nothing behind
      the terminator is read. */
  predicate LooksAt(text: array<char>, at: nat, word: string)
    requires word == "" || Terminated(text, at)
    requires Plain(word)
    reads text
    ensures LooksAt(text, at, word) <==> at <= text.Length && word <= text[at..]
    decreases |word|
  {
    if word == "" then at <= text.Length
    else if text[at] != word[0] then false
    else
      assert word[1..] == "" || text[at] != '\0';
      assert at + 1 <= text.Length;
      assert text[at..][1..] == text[at + 1..];
      LooksAt(text, at + 1, word[1..])
  }

  lemma TerminatedStep(text: array<char>, at: nat, length: nat)
    requires Terminated(text, at) && at + length <= text.Length
    requires forall i :: at <= i < at + length ==> text[i] != '\0'
    ensures Terminated(text, at + length)
  {
  }

  /** Reads digits up to the first other character. */
  method ReadNumber(text: array<char>, at: nat, radix: nat) returns (code: nat, next: nat)
    requires Terminated(text, at)
    ensures at <= next < text.Length && Terminated(text, next)
    ensures next == at + DigitCount(text[at..])
    ensures code == CodeOf(text[at..], next - at, radix)
  {
    ghost var digits := text[at..];
    code, next := 0, at;
    while IsDigit(text[next])
      invariant at <= next < text.Length && Terminated(text, next)
      invariant next - at <= DigitCount(digits)
      invariant code == CodeOf(digits, next - at, radix)
      decreases text.Length - next
    {
      assert text[next] == digits[next - at];
      code := (code * radix + DigitValue(text[next])) % WORD;
      next := next + 1;
    }
    assert text[next] == digits[next - at];
  }

  function Overwritten(s: string, at: nat, out: string): (r: string)
    requires at + |out| <= |s|
    ensures |r| == |s|
  {
    s[..at] + out + s[at + |out|..]
  }

  lemma OverwrittenIs(was: string, now: string, at: nat, out: string)
    requires at + |out| <= |was| == |now|
    requires now[..at] == was[..at] && now[at..at + |out|] == out && now[at + |out|..] == was[at + |out|..]
    ensures now == Overwritten(was, at, out)
  {
    assert now == now[..at] + now[at..at + |out|] + now[at + |out|..];
  }

  /** Writes the bytes of a code point over the text; fails on a number that is not one. */
  method InsertCodedCharacter(text: array<char>, dest: nat, code: nat) returns (ok: bool, next: nat)
    requires code < CODE_LIMIT ==> dest + |Utf8(code)| <= text.Length
    modifies text
    ensures ok == (code < CODE_LIMIT)
    ensures ok ==> next == dest + |Utf8(code)| && text[..] == Overwritten(old(text[..]), dest, Utf8(code))
    ensures !ok ==> text[..] == old(text[..]) && next == dest
    ensures dest <= text.Length ==> text[..dest] == old(text[..dest])
    ensures ok ==> next <= text.Length && text[next..] == old(text[next..])
  {
    hide Overwritten;
    ok, next := true, dest;
    ghost var was := text[..];
    if code < 0x80 {
      text[dest] := code as char;
      next := dest + 1;
    } else if code < 0x800 {
      text[dest + 1] := (0x80 + code % 64) as char;
      text[dest] := (0xC0 + code / 64) as char;
      next := dest + 2;
    } else if code < 0x10000 {
      text[dest + 2] := (0x80 + code % 64) as char;
      text[dest + 1] := (0x80 + code / 64 % 64) as char;
      text[dest] := (0xE0 + code / 4096) as char;
      next := dest + 3;
    } else if code < CODE_LIMIT {
      text[dest + 3] := (0x80 + code % 64) as char;
      text[dest + 2] := (0x80 + code / 64 % 64) as char;
      text[dest + 1] := (0x80 + code / 4096 % 64) as char;
      text[dest] := (0xF0 + code / 262144) as char;
      next := dest + 4;
    } else {
      ok := false;
    }
    if ok {
      assert text[dest..next] == Utf8(code);
      assert text[..dest] == was[..dest] && text[next..] == was[next..];
      OverwrittenIs(was, text[..], dest, Utf8(code));
    }
  }

  /** Writes one character at dest and passes `length` characters at src. */
  method Put(text: array<char>, src: nat, dest: nat, c: char, length: nat) returns (next: nat, end: nat)
    requires dest < text.Length
    modifies text
    ensures next == src + length && end == dest + 1
    ensures text[..] == Overwritten(old(text[..]), dest, [c]) && text[..dest] == old(text[..dest])
  {
    text[dest] := c;
    next, end := src + length, dest + 1;
  }

  lemma SameBefore(was: string, now: string, end: nat, start: nat)
    requires start <= end <= |was| && end <= |now| && now[..end] == was[..end]
    ensures now[..start] == was[..start]
  {
    assert now[..start] == now[..end][..start] && was[..start] == was[..end][..start];
  }

  lemma SameBehind(was: string, now: string, end: nat, next: nat)
    requires end <= next <= |was| == |now| && now[end..] == was[end..]
    ensures now[next..] == was[next..]
  {
    assert now[next..] == now[end..][next - end..] && was[next..] == was[end..][next - end..];
  }

  /** What a numeric reference is, given its digits. */
  lemma NumericAt(t: string, skip: nat, radix: nat, n: nat, code: nat)
    requires skip <= |t| && n == DigitCount(t[skip..]) && code == CodeOf(t[skip..], n, radix)
    ensures var r := Numeric(t, skip, radix);
            if code < CODE_LIMIT && At(t, skip + n) == ';'
            then r.Reference? && r.out == Utf8(code) && r.length == skip + n + 1
            else r.Malformed?
  {
    hide CodeOf, DigitCount, Utf8;
  }

  method ExpandNumeric(text: array<char>, src: nat, dest: nat, skip: nat, radix: nat)
    returns (ok: bool, next: nat, end: nat)
    requires dest <= src && 2 <= skip && radix <= 16
    requires src + skip <= text.Length && Terminated(text, src + skip)
    modifies text
    ensures text[..dest] == old(text[..dest]) && dest <= end <= next
    ensures match Numeric(old(text[src..]), skip, radix)
      case NoReference => true
      case Malformed => (
        !ok && next == src + skip + DigitCount(old(text[src..])[skip..]) <= text.Length
        && text[next..] == old(text[next..]))
      case Reference(out, length) => (
        ok && next == src + length && end == dest + |out|
        && next <= text.Length && text[..] == Overwritten(old(text[..]), dest, out))
  {
    hide Numeric, CodeOf, DigitCount, Utf8, Overwritten, LooksAt;
    ghost var t := text[src..];
    assert t[skip..] == text[src + skip..];
    NumericShrinks(t, skip, radix);
    var code;
    code, next := ReadNumber(text, src + skip, radix);
    NumericAt(t, skip, radix, DigitCount(t[skip..]), code);
    ghost var was := text[..];
    ok, end := InsertCodedCharacter(text, dest, code);
    assert text[next..] == was[next..] by { SameBehind(was, text[..], end, next); }
    if ok {
      assert text[next] == t[next - src];
      if text[next] == ';' {
        next := next + 1;
      } else {
        ok := false;
      }
    }
  }

  /** Replaces a numeric reference at src, hexadecimal or decimal. */
  method ExpandCode(text: array<char>, src: nat, dest: nat) returns (ok: bool, next: nat, end: nat)
    requires dest <= src && Terminated(text, src) && "&#" <= text[src..]
    modifies text
    ensures text[..dest] == old(text[..dest]) && dest <= end <= next
    ensures match ReferenceAt(old(text[src..]))
      case NoReference => false
      case Malformed => (
        !ok && next == src + ReadBefore(old(text[src..])) <= text.Length && text[next..] == old(text[next..]))
      case Reference(out, length) => (
        ok && next == src + length && end == dest + |out|
        && next <= text.Length && text[..] == Overwritten(old(text[..]), dest, out))
  {
    hide LooksAt, Overwritten, Numeric, DigitCount, ReferenceAt, ReadBefore;
    CodeAt(text[src..]);
    if LooksAt(text, src, "&#x") {
      TerminatedStep(text, src, 3);
      ok, next, end := ExpandNumeric(text, src, dest, 3, 16);
    } else {
      TerminatedStep(text, src, 2);
      ok, next, end := ExpandNumeric(text, src, dest, 2, 10);
    }
  }

  /** Replaces a named or numeric reference at src, writing at dest. */
  method ExpandReference(text: array<char>, src: nat, dest: nat) returns (found: bool, ok: bool, next: nat, end: nat)
    requires dest <= src && Terminated(text, src)
    modifies text
    ensures text[..dest] == old(text[..dest]) && dest <= end <= next
    ensures match ReferenceAt(old(text[src..]))
      case NoReference => ok && !found && text[..] == old(text[..])
      case Malformed => (
        found && !ok && next == src + ReadBefore(old(text[src..])) <= text.Length
        && text[next..] == old(text[next..]))
      case Reference(out, length) => (
        ok && found && next == src + length && end == dest + |out|
        && next <= text.Length && text[..] == Overwritten(old(text[..]), dest, out))
  {
    hide LooksAt, Overwritten, Numeric, ReadBefore;
    found, ok, next, end := true, true, src, dest;
    ReferenceShrinks(text[src..]);
    if LooksAt(text, src, "&amp;") {
      next, end := Put(text, src, dest, '&', 5);
    } else if LooksAt(text, src, "&apos;") {
      next, end := Put(text, src, dest, '\'', 6);
    } else if LooksAt(text, src, "&quot;") {
      next, end := Put(text, src, dest, '"', 6);
    } else if LooksAt(text, src, "&gt;") {
      next, end := Put(text, src, dest, '>', 4);
    } else if LooksAt(text, src, "&lt;") {
      next, end := Put(text, src, dest, '<', 4);
    } else if LooksAt(text, src, "&#") {
      ok, next, end := ExpandCode(text, src, dest);
    } else {
      found := false;
    }
  }

  /** The text from `start` on, when the characters before `dest` are final and those from `src` on
      are still as they were. */
  ghost predicate Progress(was: string, now: string, start: nat, dest: nat, src: nat, stop: char) {
    start <= dest <= src <= |was| && |now| == |was| &&
    now[..start] == was[..start] && now[src..] == was[src..] &&
    Expand(was[start..], stop) == Prepend(now[start..dest], Expand(was[src..], stop))
  }

  lemma PrependTwice(a: string, b: string, e: Expansion)
    ensures Prepend(a, Prepend(b, e)) == Prepend(a + b, e)
  {
    if e.Expanded? {
      assert a + (b + e.out) == a + b + e.out;
    }
  }

  lemma ProgressStep(was: string, now: string, now': string, start: nat, dest: nat, src: nat, stop: char,
                     out: string, length: nat)
    requires Progress(was, now, start, dest, src, stop) && !Stops(was[src..], stop)
    requires length > 0 && src + length <= |was| && |out| <= length
    requires ReferenceAt(was[src..]) == (if length == 1 then NoReference else Reference(out, length))
    requires length == 1 ==> out == was[src..src + 1]
    requires now' == Overwritten(now, dest, out)
    ensures Progress(was, now', start, dest + |out|, src + length, stop)
  {
    hide ReferenceAt, Expand, Stops;
    var front, tail := was[src..src + length], was[src + length..];
    assert was[src..] == front + tail;
    ExpandStep(front, tail, out, stop);
    assert now'[start..dest + |out|] == now[start..dest] + out;
    assert now'[src + length..] == now[src..][length..];
    assert now'[..start] == now[..start];
    PrependTwice(now[start..dest], out, Expand(tail, stop));
  }

  lemma ProgressBounds(was: string, now: string, start: nat, dest: nat, src: nat, stop: char)
    requires Progress(was, now, start, dest, src, stop) && !Stops(was[src..], stop)
    ensures start <= dest <= src < |was| && |now| == |was| && now[src] == was[src]
    ensures now[src..] == was[src..]
  {
    hide Expand;
    assert now[src] == now[src..][0] && was[src] == was[src..][0];
  }

  lemma CopyStep(was: string, now: string, start: nat, dest: nat, src: nat, stop: char)
    requires Progress(was, now, start, dest, src, stop) && !Stops(was[src..], stop)
    requires ReferenceAt(was[src..]) == NoReference
    ensures dest < |now| && Progress(was, now[dest := was[src]], start, dest + 1, src + 1, stop)
  {
    hide ReferenceAt, Expand, Progress;
    assert start <= dest <= src < |was| && |now| == |was| by { ProgressBounds(was, now, start, dest, src, stop); }
    assert now[dest := was[src]] == Overwritten(now, dest, [was[src]]);
    ProgressStep(was, now, now[dest := was[src]], start, dest, src, stop, [was[src]], 1);
  }

  lemma ProgressSuffix(was: string, now: string, start: nat, dest: nat, src: nat, stop: char)
    requires Progress(was, now, start, dest, src, stop)
    ensures start <= dest <= src <= |was| == |now| && now[src..] == was[src..]
    ensures src < |was| ==> now[src] == was[src] == was[src..][0]
  {
    hide Expand;
    if src < |was| {
      assert now[src] == now[src..][0] && was[src] == was[src..][0];
    }
  }

  lemma ProgressFrame(was: string, now: string, now': string, start: nat, dest: nat, src: nat,
                      dest': nat, src': nat, nul: nat, stop: char)
    requires Progress(was, now, start, dest, src, stop) && Progress(was, now', start, dest', src', stop)
    requires src <= nul && src' <= nul <= |was|
    ensures now'[..start] == now[..start] && now'[nul..] == now[nul..]
  {
    hide Expand;
    assert now[src..][nul - src..] == now[nul..] && was[src..][nul - src..] == was[nul..];
    assert now'[src'..][nul - src'..] == now'[nul..] && was[src'..][nul - src'..] == was[nul..];
  }

  lemma FailedStep(was: string, now: string, start: nat, dest: nat, src: nat, stop: char)
    requires Progress(was, now, start, dest, src, stop) && !Stops(was[src..], stop)
    requires ReferenceAt(was[src..]) == Malformed
    ensures Expand(was[start..], stop) == Failed
  {
    hide ReferenceAt, Stops;
  }

  lemma Finished(was: string, now: string, start: nat, dest: nat, src: nat, stop: char)
    requires Progress(was, now, start, dest, src, stop) && Stops(was[src..], stop)
    ensures Expand(was[start..], stop) == Expanded(now[start..dest], was[src..])
  {
    assert now[start..dest] + "" == now[start..dest];
  }

  lemma ProgressStart(was: string, start: nat, stop: char)
    requires start <= |was|
    ensures Progress(was, was, start, start, start, stop)
  {
    hide Expand;
    assert was[start..start] == "";
    var e := Expand(was[start..], stop);
    if e.Expanded? {
      assert "" + e.out == e.out;
    }
  }

  /** One turn of the translation loop. */
  method ExpandOne(text: array<char>, start: nat, src: nat, dest: nat, stop: char,
                   ghost was: string, ghost nul: nat) returns (ok: bool, next: nat, end: nat)
    requires start <= dest <= src < nul < text.Length == |was|
    requires was[nul] == '\0'
    requires Progress(was, text[..], start, dest, src, stop) && !Stops(was[src..], stop)
    modifies text
    ensures text[..start] == old(text[..start])
    ensures start <= end <= next <= nul && src < next && text[next..] == was[next..]
    ensures ok ==> Progress(was, text[..], start, end, next, stop)
    ensures !ok ==> Expand(was[start..], stop) == Failed
  {
    hide ReferenceAt, Overwritten, Expand, Progress, Stops;
    ghost var now := text[..];
    ProgressBounds(was, now, start, dest, src, stop);
    assert text[src..] == was[src..] && was[src..][0] == text[src];
    var found := false;
    ok, next, end := true, src, dest;
    if text[src] == '&' {
      ReferenceShrinks(was[src..]);
      found, ok, next, end := ExpandReference(text, src, dest);
      if !ok {
        FailedStep(was, now, start, dest, src, stop);
        MalformedPlain(was[src..], nul - src);
        SameBehind(was, now, src, next);
        SameBefore(now, text[..], dest, start);
        return;
      }
    } else {
      NoAmpersand(was[src..]);
    }
    if !found {
      CopyStep(was, now, start, dest, src, stop);
      text[dest] := text[src];
      next, end := src + 1, dest + 1;
    } else {
      ghost var r := ReferenceAt(was[src..]);
      ReferencePlain(was[src..], nul - src);
      ProgressStep(was, now, text[..], start, dest, src, stop, r.out, r.length);
    }
    ProgressFrame(was, now, text[..], start, dest, src, end, next, nul, stop);
    ProgressSuffix(was, text[..], start, end, next, stop);
  }

  /** Expands the text from `start` up to the stop character inside the buffer itself: the result
      stands at text[start..end]. Whether or not that succeeds, writing ends at `end`, which is not behind
      the reading position `next`, and the unread rest of the buffer is untouched. */
  method SkipAndExpand(text: array<char>, start: nat, stop: char, ghost nul: nat)
    returns (ok: bool, next: nat, end: nat)
    requires start <= nul < text.Length && text[nul] == '\0'
    modifies text
    ensures text[..start] == old(text[..start])
    ensures start <= end <= next <= nul && text[next..] == old(text[next..])
    ensures match Expand(old(text[start..]), stop)
      case Failed => !ok
      case Expanded(out, rest) => ok && text[start..end] == out && text[next..] == rest
  {
    hide ReferenceAt, Overwritten, Expand, Progress;
    ghost var was := text[..];
    ok, next := true, start;
    assert was[start..start] == "";
    ProgressStart(was, start, stop);
    while text[next] != stop && text[next] != '&' && text[next] != '\0'
      invariant start <= next <= nul
      invariant text[..] == was
      invariant Progress(was, was, start, next, next, stop)
      decreases text.Length - next
    {
      assert was[next..][0] == was[next];
      NoAmpersand(was[next..]);
      CopyStep(was, was, start, next, next, stop);
      assert was[next := was[next]] == was;
      next := next + 1;
    }
    end := next;
    while text[next] != stop && text[next] != '\0'
      invariant ok && start <= end <= next <= nul && text[next..] == was[next..]
      invariant text[..start] == was[..start]
      invariant Progress(was, text[..], start, end, next, stop)
      decreases text.Length - next
    {
      ProgressSuffix(was, text[..], start, end, next, stop);
      ok, next, end := ExpandOne(text, start, next, end, stop, was, nul);
      if !ok {
        return;
      }
    }
    ProgressSuffix(was, text[..], start, end, next, stop);
    Finished(was, text[..], start, end, next, stop);
  }
}
