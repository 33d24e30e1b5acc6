/** Text operations the parsers are built from, with the facts that make them invertible. */
module Text {

  datatype Option<+T> = None | Some(value: T)

  // ---- splitting and joining on one character ----

  function Split(s: string, c: char): (r: seq<string>)
    ensures |r| >= 1
  {
    if s == "" then [""]
    else if s[0] == c then [""] + Split(s[1..], c)
    else
      var r := Split(s[1..], c);
      [[s[0]] + r[0]] + r[1..]
  }

  function Join(parts: seq<string>, sep: string): string {
    if |parts| == 0 then ""
    else if |parts| == 1 then parts[0]
    else parts[0] + sep + Join(parts[1..], sep)
  }

  lemma {:induction false} SplitWhole(s: string, c: char)
    requires c !in s
    ensures Split(s, c) == [s]
  {
    if s == "" {
    } else {
      assert s == [s[0]] + s[1..];
      SplitWhole(s[1..], c);
    }
  }

  lemma {:induction false} SplitFirst(a: string, c: char, rest: string)
    requires c !in a
    ensures Split(a + [c] + rest, c) == [a] + Split(rest, c)
  {
    var whole := a + [c] + rest;
    if a == "" {
      assert whole[1..] == rest;
    } else {
      assert whole[1..] == a[1..] + [c] + rest;
      SplitFirst(a[1..], c, rest);
      assert a == [a[0]] + a[1..];
    }
  }

  lemma {:induction false} SplitJoin(parts: seq<string>, c: char)
    requires |parts| >= 1
    requires forall p :: p in parts ==> c !in p
    ensures Split(Join(parts, [c]), c) == parts
  {
    var first, rest := parts[0], parts[1..];
    assert first in parts;
    if rest == [] {
      SplitWhole(first, c);
    } else {
      assert forall p :: p in rest ==> p in parts;
      SplitJoin(rest, c);
      SplitFirst(first, c, Join(rest, [c]));
      assert Join(parts, [c]) == first + [c] + Join(rest, [c]);
      assert parts == [first] + rest;
    }
  }

  /** Position of the first c, or |s| when there is none. */
  function IndexOf(s: string, c: char): (i: nat)
    ensures i <= |s|
    ensures c !in s[..i]
    ensures i < |s| ==> s[i] == c
  {
    if s == "" || s[0] == c then 0 else 1 + IndexOf(s[1..], c)
  }

  lemma FoundInside(s: string, c: char)
    ensures IndexOf(s, c) < |s| ==> c in s
  {
    if IndexOf(s, c) < |s| {
      assert s[IndexOf(s, c)] == c;
    }
  }

  lemma {:induction false} IndexOfIs(a: string, c: char, rest: string)
    requires c !in a
    ensures IndexOf(a + [c] + rest, c) == |a|
  {
    var s := a + [c] + rest;
    if a == "" {
    } else {
      assert s[1..] == a[1..] + [c] + rest;
      IndexOfIs(a[1..], c, rest);
    }
  }

  // ---- whitespace ----

  /** The Unicode White_Space property. */
  predicate IsSpace(c: char) {
    var n := c as int;
    9 <= n <= 13 || n == 32 || n == 0x85 || n == 0xA0 || n == 0x1680 || 0x2000 <= n <= 0x200A
    || n == 0x2028 || n == 0x2029 || n == 0x202F || n == 0x205F || n == 0x3000
  }

  predicate NoSpace(s: string) {
    forall i :: 0 <= i < |s| ==> !IsSpace(s[i])
  }

  /** Whitespace-separated words of s, when `word` has already been read. */
  function TokensFrom(s: string, word: string): seq<string> {
    if s == "" then (if word == "" then [] else [word])
    else if IsSpace(s[0]) then (if word == "" then [] else [word]) + TokensFrom(s[1..], "")
    else TokensFrom(s[1..], word + [s[0]])
  }

  function Tokens(s: string): seq<string> {
    TokensFrom(s, "")
  }

  lemma {:induction false} TokensCut(a: string, gap: char, b: string, word: string)
    requires IsSpace(gap)
    ensures TokensFrom(a + [gap] + b, word) == TokensFrom(a, word) + Tokens(b)
    decreases |a|
  {
    var s := a + [gap] + b;
    if a == "" {
      assert s[1..] == b;
    } else {
      assert s[1..] == a[1..] + [gap] + b;
      TokensCut(a[1..], gap, b, if IsSpace(a[0]) then "" else word + [a[0]]);
    }
  }

  /** Word lists on both sides of a space concatenate. */
  lemma TokensConcat(a: string, b: string)
    ensures Tokens(a + " " + b) == Tokens(a) + Tokens(b)
  {
    TokensCut(a, ' ', b, "");
  }

  lemma {:induction false} TokensOfWord(w: string, word: string)
    requires NoSpace(w)
    ensures TokensFrom(w, word) == if word + w == "" then [] else [word + w]
    decreases |w|
  {
    if w == "" {
      assert word + w == word;
    } else {
      TokensOfWord(w[1..], word + [w[0]]);
      assert word + [w[0]] + w[1..] == word + w;
    }
  }

  predicate IsWord(w: string) {
    w != "" && NoSpace(w)
  }

  /** Words with white space before each of them and after the last. */
  function Spaced(words: seq<string>, gaps: seq<string>): string
    requires |gaps| == |words| + 1
  {
    if words == [] then gaps[0] else gaps[0] + words[0] + Spaced(words[1..], gaps[1..])
  }

  predicate IsGap(s: string) {
    forall i :: 0 <= i < |s| ==> IsSpace(s[i])
  }

  /** Any white space, and some between two words; so columns may be padded. */
  predicate AreGaps(gaps: seq<string>) {
    (forall i :: 0 <= i < |gaps| ==> IsGap(gaps[i])) && forall i :: 0 < i < |gaps| - 1 ==> gaps[i] != ""
  }

  lemma {:induction false} TokensSkip(gap: string, rest: string)
    requires IsGap(gap)
    ensures Tokens(gap + rest) == Tokens(rest)
  {
    if gap == "" {
      assert gap + rest == rest;
    } else {
      assert (gap + rest)[1..] == gap[1..] + rest;
      TokensSkip(gap[1..], rest);
    }
  }

  lemma WordThen(w: string, rest: string)
    requires IsWord(w) && (rest == "" || IsSpace(rest[0]))
    ensures Tokens(w + rest) == [w] + Tokens(rest)
  {
    TokensOfWord(w, "");
    assert "" + w == w;
    if rest == "" {
      assert w + rest == w;
    } else {
      assert w + rest == w + [rest[0]] + rest[1..];
      TokensCut(w, rest[0], rest[1..], "");
    }
  }

  lemma SpacedStarts(words: seq<string>, gaps: seq<string>)
    requires |gaps| == |words| + 1 && IsGap(gaps[0]) && (words != [] ==> gaps[0] != "")
    ensures Spaced(words, gaps) == "" || IsSpace(Spaced(words, gaps)[0])
  {
    if words != [] {
      assert Spaced(words, gaps)[0] == gaps[0][0];
    }
  }

  /** Words printed with any white space around them are read back as the same words. */
  lemma {:induction false} TokensSpaced(words: seq<string>, gaps: seq<string>)
    requires |gaps| == |words| + 1 && AreGaps(gaps)
    requires forall w :: w in words ==> IsWord(w)
    ensures Tokens(Spaced(words, gaps)) == words
  {
    hide TokensFrom, IsSpace, NoSpace;
    if words == [] {
      TokensSkip(gaps[0], "");
      assert gaps[0] + "" == gaps[0];
      NoTokens();
    } else {
      var w, rest := words[0], Spaced(words[1..], gaps[1..]);
      TokensSpaced(words[1..], gaps[1..]);
      SpacedStarts(words[1..], gaps[1..]);
      WordThen(w, rest);
      TokensSkip(gaps[0], w + rest);
      assert Spaced(words, gaps) == gaps[0] + (w + rest);
    }
  }

  lemma NoTokens()
    ensures Tokens("") == []
  {
  }

  /** Words printed with single spaces between them are read back as the same words. */
  lemma {:induction false} TokensJoin(words: seq<string>)
    requires forall w :: w in words ==> IsWord(w)
    ensures Tokens(Join(words, " ")) == words
  {
    if |words| == 0 {
    } else if |words| == 1 {
      assert IsWord(words[0]);
      TokensOfWord(words[0], "");
      assert "" + words[0] == words[0];
    } else {
      assert IsWord(words[0]);
      TokensConcat(words[0], Join(words[1..], " "));
      TokensOfWord(words[0], "");
      assert "" + words[0] == words[0];
      TokensJoin(words[1..]);
      assert [words[0]] + words[1..] == words;
    }
  }

  function TrimStart(s: string): string {
    if s != "" && IsSpace(s[0]) then TrimStart(s[1..]) else s
  }

  function TrimEnd(s: string): string {
    if s != "" && IsSpace(s[|s| - 1]) then TrimEnd(s[..|s| - 1]) else s
  }

  function Trim(s: string): string {
    TrimEnd(TrimStart(s))
  }

  predicate IsTrimmed(s: string) {
    s == "" || (!IsSpace(s[0]) && !IsSpace(s[|s| - 1]))
  }

  lemma {:induction false} TrimStartSkips(left: string, rest: string)
    requires IsGap(left)
    ensures TrimStart(left + rest) == TrimStart(rest)
  {
    if left == "" {
      assert left + rest == rest;
    } else {
      assert (left + rest)[1..] == left[1..] + rest;
      TrimStartSkips(left[1..], rest);
    }
  }

  lemma {:induction false} TrimEndSkips(rest: string, right: string)
    requires IsGap(right)
    ensures TrimEnd(rest + right) == TrimEnd(rest)
  {
    if right == "" {
      assert rest + right == rest;
    } else {
      var n := |right| - 1;
      assert (rest + right)[..|rest| + n] == rest + right[..n];
      TrimEndSkips(rest, right[..n]);
    }
  }

  /** Any white space around a text that neither begins nor ends with some is removed, and nothing else. */
  lemma TrimPadded(left: string, body: string, right: string)
    requires IsGap(left) && IsGap(right) && IsTrimmed(body)
    ensures Trim(left + body + right) == body
  {
    TrimStartSkips(left, body + right);
    assert left + body + right == left + (body + right);
    if body == "" {
      TrimStartSkips(right, "");
      assert right + "" == right && body + right == right;
    } else {
      assert TrimStart(body + right) == body + right;
      TrimEndSkips(body, right);
      assert TrimEnd(body) == body;
    }
  }

  lemma TrimNoSpace(s: string)
    requires NoSpace(s)
    ensures Trim(s) == s
  {
  }

  lemma {:induction false} TrimStartClean(s: string)
    ensures TrimStart(s) == "" || !IsSpace(TrimStart(s)[0])
  {
    if s == "" || !IsSpace(s[0]) {
    } else {
      TrimStartClean(s[1..]);
    }
  }

  lemma {:induction false} TrimEndClean(s: string)
    ensures TrimEnd(s) == "" || !IsSpace(TrimEnd(s)[|TrimEnd(s)| - 1])
    ensures s != "" && !IsSpace(s[0]) ==> TrimEnd(s) != "" && TrimEnd(s)[0] == s[0]
  {
    if s == "" || !IsSpace(s[|s| - 1]) {
    } else {
      TrimEndClean(s[..|s| - 1]);
    }
  }

  /** Trimming twice is trimming once. */
  lemma TrimTwice(s: string)
    ensures Trim(Trim(s)) == Trim(s)
  {
    hide IsSpace;
    TrimStartClean(s);
    TrimEndClean(TrimStart(s));
  }

  /** str::lines: cut after each line feed, drop a carriage return before it, and no line for an empty rest. */
  function Lines(s: string): seq<string> {
    if s == "" then []
    else
      var i := IndexOf(s, '\n');
      if i == |s| then [s]
      else
        [Chomped(s[..i])] + Lines(s[i + 1..])
  }

  function Chomped(line: string): string {
    if line != "" && line[|line| - 1] == '\r' then line[..|line| - 1] else line
  }

  predicate NoBreak(s: string) {
    '\n' !in s && '\r' !in s
  }

  /** A line with its terminator, LF or CR LF. */
  function Terminated(line: string, crlf: bool): string {
    line + (if crlf then "\r\n" else "\n")
  }

  lemma LineCut(cut: string, rest: string)
    requires '\n' !in cut
    ensures Lines(cut + ['\n'] + rest) == [Chomped(cut)] + Lines(rest)
  {
    var s := cut + ['\n'] + rest;
    IndexOfIs(cut, '\n', rest);
    hide Chomped, IndexOf;
    assert s[..|cut|] == cut && s[|cut| + 1..] == rest;
  }

  lemma ChompedLine(line: string)
    requires NoBreak(line)
    ensures Chomped(line) == line && Chomped(line + "\r") == line
  {
    if line != "" {
      assert line[|line| - 1] in line;
    }
    assert (line + "\r")[..|line|] == line;
  }

  lemma LinesFirst(line: string, crlf: bool, rest: string)
    requires NoBreak(line)
    ensures Lines(Terminated(line, crlf) + rest) == [line] + Lines(rest)
  {
    ChompedLine(line);
    hide Chomped, Lines;
    if crlf {
      LineCut(line + "\r", rest);
      assert Terminated(line, crlf) == line + "\r" + ['\n'];
    } else {
      LineCut(line, rest);
      assert Terminated(line, crlf) == line + ['\n'];
    }
  }

  lemma LinesLast(line: string)
    requires NoBreak(line) && line != ""
    ensures Lines(line) == [line]
  {
  }

  // ---- substrings and case ----

  predicate OccursAt(s: string, w: string, i: nat) {
    i + |w| <= |s| && s[i..i + |w|] == w
  }

  predicate Contains(s: string, w: string) {
    exists i :: 0 <= i <= |s| && OccursAt(s, w, i)
  }

  lemma ContainsLetter(s: string, w: string, c: char)
    requires Contains(s, w) && c in w
    ensures c in s
  {
    var i :| 0 <= i <= |s| && OccursAt(s, w, i);
    var k :| 0 <= k < |w| && w[k] == c;
    assert s[i..i + |w|][k] == s[i + k];
  }

  lemma ContainsMiddle(a: string, w: string, b: string)
    ensures Contains(a + w + b, w)
  {
    assert OccursAt(a + w + b, w, |a|);
  }

  /** A word without spaces is found on one side of a space. */
  lemma ContainsAround(a: string, gap: char, b: string, w: string)
    requires IsSpace(gap) && NoSpace(w) && w != ""
    ensures Contains(a + [gap] + b, w) <==> Contains(a, w) || Contains(b, w)
  {
    hide IsSpace;
    var s := a + [gap] + b;
    if Contains(s, w) {
      var i :| 0 <= i <= |s| && OccursAt(s, w, i);
      if i + |w| <= |a| {
        OccursLeft(a, [gap] + b, w, i);
        assert a + ([gap] + b) == s;
      } else if i > |a| {
        OccursRight(a + [gap], b, w, i);
      } else {
        GapInside(a, gap, b, w, i);
      }
    }
    if Contains(a, w) {
      ContainsMiddleOf("", a, [gap] + b, w);
      assert "" + a + ([gap] + b) == s;
    }
    if Contains(b, w) {
      ContainsMiddleOf(a + [gap], b, "", w);
      assert a + [gap] + b + "" == s;
    }
  }

  lemma OccursLeft(a: string, b: string, w: string, i: nat)
    requires OccursAt(a + b, w, i) && i + |w| <= |a|
    ensures Contains(a, w)
  {
    assert a[i..i + |w|] == (a + b)[i..i + |w|];
    assert OccursAt(a, w, i);
  }

  lemma OccursRight(a: string, b: string, w: string, i: nat)
    requires OccursAt(a + b, w, i) && i >= |a|
    ensures Contains(b, w)
  {
    var k := i - |a|;
    assert b[k..k + |w|] == (a + b)[i..i + |w|];
    assert OccursAt(b, w, k);
  }

  lemma GapInside(a: string, gap: char, b: string, w: string, i: nat)
    requires OccursAt(a + [gap] + b, w, i) && i <= |a| < i + |w|
    ensures gap in w
  {
    assert (a + [gap] + b)[i..i + |w|][|a| - i] == gap;
  }

  lemma ContainsMiddleOf(a: string, s: string, b: string, w: string)
    requires Contains(s, w)
    ensures Contains(a + s + b, w)
  {
    var i :| 0 <= i <= |s| && OccursAt(s, w, i);
    assert (a + s + b)[|a| + i..|a| + i + |w|] == s[i..i + |w|];
    assert OccursAt(a + s + b, w, |a| + i);
  }

  lemma {:induction false} TrimStartKeepsWords(s: string, w: string)
    requires NoSpace(w) && w != ""
    ensures Contains(TrimStart(s), w) <==> Contains(s, w)
  {
    if s == "" || !IsSpace(s[0]) {
    } else {
      TrimStartKeepsWords(s[1..], w);
      hide Contains, NoSpace;
      ContainsAround("", s[0], s[1..], w);
      assert s == "" + [s[0]] + s[1..];
      NothingContains(w);
    }
  }

  lemma {:induction false} TrimEndKeepsWords(s: string, w: string)
    requires NoSpace(w) && w != ""
    ensures Contains(TrimEnd(s), w) <==> Contains(s, w)
  {
    if s == "" || !IsSpace(s[|s| - 1]) {
    } else {
      var n := |s| - 1;
      TrimEndKeepsWords(s[..n], w);
      hide Contains, NoSpace;
      ContainsAround(s[..n], s[n], "", w);
      assert s == s[..n] + [s[n]] + "";
      NothingContains(w);
    }
  }

  lemma NothingContains(w: string)
    requires w != ""
    ensures !Contains("", w)
  {
  }

  /** Trimming loses no word. */
  lemma TrimKeepsWords(s: string, w: string)
    requires NoSpace(w) && w != ""
    ensures Contains(Trim(s), w) <==> Contains(s, w)
  {
    hide Contains, NoSpace;
    TrimStartKeepsWords(s, w);
    TrimEndKeepsWords(TrimStart(s), w);
  }

  function LowerChar(c: char): char {
    if 'A' <= c <= 'Z' then (c as int + 32) as char else c
  }

  function Lower(s: string): (r: string)
    ensures |r| == |s| && forall i :: 0 <= i < |s| ==> r[i] == LowerChar(s[i])
  {
    seq(|s|, i requires 0 <= i < |s| => LowerChar(s[i]))
  }

  // ---- numbers ----

  /** Value of a digit character in any radix up to 16, or -1. */
  function DigitValue(c: char): int {
    if '0' <= c <= '9' then c as int - '0' as int
    else if 'a' <= c <= 'f' then c as int - 'a' as int + 10
    else if 'A' <= c <= 'F' then c as int - 'A' as int + 10
    else -1
  }

  predicate AllDigits(s: string, radix: nat) {
    forall i :: 0 <= i < |s| ==> 0 <= DigitValue(s[i]) < radix
  }

  function Number(s: string, radix: nat): nat
    requires AllDigits(s, radix)
  {
    if s == "" then 0 else Number(s[..|s| - 1], radix) * radix + DigitValue(s[|s| - 1])
  }

  /** from_str_radix for an unsigned type: an optional plus sign, at least one digit, no overflow. */
  function ParseUnsigned(s: string, radix: nat, limit: nat): Option<nat> {
    var digits := if s != "" && s[0] == '+' then s[1..] else s;
    if digits == "" || !AllDigits(digits, radix) then None
    else if Number(digits, radix) < limit then Some(Number(digits, radix)) else None
  }

  const LOWER_HEX: string := "0123456789abcdef"
  const UPPER_HEX: string := "0123456789ABCDEF"

  /** A digit stands at its value in the usual digit tables; no other character has a value. */
  lemma DigitTable(c: char)
    ensures 0 <= DigitValue(c) ==>
      DigitValue(c) < 16 && (c == LOWER_HEX[DigitValue(c)] || c == UPPER_HEX[DigitValue(c)])
    ensures DigitValue(c) < 0 ==> c !in LOWER_HEX && c !in UPPER_HEX
  {
  }

  lemma DigitsOfTable(d: nat)
    requires d < 16
    ensures DigitValue(LOWER_HEX[d]) == d && DigitValue(UPPER_HEX[d]) == d
  {
  }

  predicate IsDigits(s: string, radix: nat) {
    s != "" && AllDigits(s, radix)
  }

  lemma UnsignedOf(s: string, digits: string, radix: nat, limit: nat)
    requires IsDigits(digits, radix) && (s == digits || s == "+" + digits)
    ensures var n := Number(digits, radix); ParseUnsigned(s, radix, limit) == if n < limit then Some(n) else None
  {
    assert DigitValue(digits[0]) >= 0;
    assert digits[0] != '+';
    assert ("+" + digits)[1..] == digits;
    hide Number;
  }

  /** Exactly the texts of digits, with a plus sign or without, whose number is below the limit are numbers. */
  lemma UnsignedIff(s: string, radix: nat, limit: nat, n: nat)
    ensures ParseUnsigned(s, radix, limit) == Some(n) <==>
      n < limit && exists digits :: IsDigits(digits, radix) && (s == digits || s == "+" + digits)
                                    && Number(digits, radix) == n
  {
    if ParseUnsigned(s, radix, limit) == Some(n) {
      var digits := if s != "" && s[0] == '+' then s[1..] else s;
      assert s == digits || s == "+" + digits;
      assert IsDigits(digits, radix);
    }
    hide ParseUnsigned, IsDigits, Number;
    if digits :| IsDigits(digits, radix) && (s == digits || s == "+" + digits) && Number(digits, radix) == n {
      UnsignedOf(s, digits, radix, limit);
    }
  }

  const U8: nat := 0x100
  const U16: nat := 0x1_0000
  const U32: nat := 0x1_0000_0000
  const U64: nat := 0x1_0000_0000_0000_0000

  function DecimalDigit(d: nat): char
    requires d < 10
  {
    (d + '0' as int) as char
  }

  /** The usual decimal form, as the formatter prints it. */
  function Decimal(n: nat): string {
    if n < 10 then [DecimalDigit(n)] else Decimal(n / 10) + [DecimalDigit(n % 10)]
  }

  lemma {:induction false} DecimalReads(n: nat)
    ensures Decimal(n) != "" && AllDigits(Decimal(n), 10) && Number(Decimal(n), 10) == n
    ensures forall i :: 0 <= i < |Decimal(n)| ==> '0' <= Decimal(n)[i] <= '9'
  {
    if n < 10 {
      assert Number("", 10) == 0;
      assert Decimal(n)[..0] == "";
    } else {
      DecimalReads(n / 10);
      var s := Decimal(n);
      assert s[..|s| - 1] == Decimal(n / 10);
    }
  }

  /** Printing an unsigned number and reading it back, with or without surrounding trimming, gives the number. */
  lemma DecimalRoundTrip(n: nat, limit: nat)
    requires n < limit
    ensures ParseUnsigned(Decimal(n), 10, limit) == Some(n)
    ensures Trim(Decimal(n)) == Decimal(n)
  {
    DecimalReads(n);
    TrimNoSpace(Decimal(n));
  }

  function HexDigit(d: nat): char
    requires d < 16
  {
    if d < 10 then (d + '0' as int) as char else (d - 10 + 'A' as int) as char
  }

  function Pow16(w: nat): nat {
    if w == 0 then 1 else 16 * Pow16(w - 1)
  }

  /** printf %0*X for a value that fits the width. */
  function Hex(n: nat, width: nat): (r: string)
    ensures |r| == width
  {
    if width == 0 then "" else Hex(n / 16, width - 1) + [HexDigit(n % 16)]
  }

  lemma HexDigitReads(d: nat)
    requires d < 16
    ensures var c := HexDigit(d); DigitValue(c) == d && c != '+' && c != ':' && !IsSpace(c)
  {
  }

  lemma {:induction false} HexReads(n: nat, width: nat)
    requires n < Pow16(width)
    ensures AllDigits(Hex(n, width), 16) && Number(Hex(n, width), 16) == n
    ensures forall i :: 0 <= i < width ==>
      Hex(n, width)[i] != '+' && Hex(n, width)[i] != ':' && !IsSpace(Hex(n, width)[i])
  {
    if width == 0 {
    } else {
      HexReads(n / 16, width - 1);
      HexDigitReads(n % 16);
      hide DigitValue, HexDigit, IsSpace;
      var s := Hex(n, width);
      assert s[..width - 1] == Hex(n / 16, width - 1);
    }
  }

  lemma HexRoundTrip(n: nat, width: nat, limit: nat)
    requires width > 0 && n < Pow16(width) && n < limit
    ensures ParseUnsigned(Hex(n, width), 16, limit) == Some(n)
  {
    HexReads(n, width);
  }
}
