/**
 The texts the id-map reader accepts, as a grammar: blanks may stand around braces, commas, names, colons
 and numbers, and between two commas there may be nothing at all. The reader accepts exactly these texts.
 */
module IdMapGrammar {
  import opened Geometry
  import opened IdMapJson

  predicate Blank(s: string) {
    forall i: nat :: i < |s| ==> IsWhitespace(s[i])
  }

  /** The blanks are the 25 code points of Unicode's White_Space property. */
  lemma BlanksAreWhiteSpace(c: char)
    ensures IsWhitespace(c) <==>
              || 9 <= c as int <= 13 || 8192 <= c as int <= 8202
              || c as int in {32, 133, 160, 5760, 8232, 8233, 8239, 8287, 12_288}
  {
  }

  predicate CleanEnds(s: string) {
    s != [] ==> !IsWhitespace(s[0]) && !IsWhitespace(s[|s| - 1])
  }

  // ----- Numbers -----

  /** The text is a sign or none, then at least one digit, and stands for the i32 `n`. */
  ghost predicate IsNumber(text: string, n: int) {
    IsI32(n) && exists digits: string ::
      && digits != [] && AllDigits(digits)
      && ((n == DigitsValue(digits) && (text == digits || text == "+" + digits))
          || (n == -(DigitsValue(digits) as int) && text == "-" + digits))
  }

  lemma {:induction false} NumberReadsExactly(text: string, n: int)
    ensures ParseI32(text) == Some(n) <==> IsNumber(text, n)
  {
    if ParseI32(text) == Some(n) {
      var digits := if text[0] == '-' || text[0] == '+' then text[1..] else text;
      assert text == digits || text == [text[0]] + digits;
      assert digits != [] && AllDigits(digits);
    }
    if IsNumber(text, n) {
      var digits: string :| digits != [] && AllDigits(digits)
        && ((n == DigitsValue(digits) && (text == digits || text == "+" + digits))
            || (n == -(DigitsValue(digits) as int) && text == "-" + digits));
      assert IsDigit(digits[0]);
      assert text == digits || text[1..] == digits;
    }
  }

  /** Leading zeros do not matter. */
  lemma {:induction false} LeadingZero(s: string)
    requires AllDigits(s)
    ensures AllDigits("0" + s) && DigitsValue("0" + s) == DigitsValue(s)
  {
    var t := "0" + s;
    assert forall i: nat :: i < |t| ==> IsDigit(t[i]);
    if s == [] {
      assert t[..0] == [] && DigitsValue(t[..0]) == 0;
    } else {
      LeadingZero(s[..|s| - 1]);
      assert t[..|t| - 1] == "0" + s[..|s| - 1];
    }
  }

  lemma NumberHasCleanEnds(text: string, n: int)
    requires IsNumber(text, n)
    ensures text != [] && CleanEnds(text) && ',' !in text && ':' !in text
  {
    var digits: string :| digits != [] && AllDigits(digits)
      && (text == digits || text == "+" + digits || text == "-" + digits);
    assert IsDigit(digits[0]) && IsDigit(digits[|digits| - 1]);
    assert text[|text| - 1] == digits[|digits| - 1];
    assert forall i: nat :: i < |text| ==> IsDigit(text[i]) || text[i] == '+' || text[i] == '-';
  }

  // ----- Blanks -----

  lemma {:induction false} TrimStartOfPadded(a: string, s: string)
    requires Blank(a) && (s != [] ==> !IsWhitespace(s[0]))
    ensures TrimStart(a + s) == s
  {
    if a == [] {
      assert a + s == s;
    } else {
      assert (a + s)[1..] == a[1..] + s;
      TrimStartOfPadded(a[1..], s);
    }
  }

  lemma {:induction false} TrimEndOfPadded(s: string, b: string)
    requires Blank(b) && (s != [] ==> !IsWhitespace(s[|s| - 1]))
    ensures TrimEnd(s + b) == s
  {
    if b == [] {
      assert s + b == s;
    } else {
      assert (s + b)[..|s + b| - 1] == s + b[..|b| - 1];
      TrimEndOfPadded(s, b[..|b| - 1]);
    }
  }

  /** Trimming removes blanks around a text with clean ends, and nothing else. */
  lemma {:induction false} TrimOfPadded(a: string, s: string, b: string)
    requires Blank(a) && Blank(b) && CleanEnds(s)
    ensures Trim(a + s + b) == s
  {
    if s == [] {
      assert Blank(a + b) && a + s + b == a + b + [];
      TrimStartOfPadded(a + b, []);
    } else {
      assert a + s + b == a + (s + b);
      TrimStartOfPadded(a, s + b);
      TrimEndOfPadded(s, b);
    }
  }

  lemma {:induction false} TrimStartSplits(s: string) returns (a: string)
    ensures s == a + TrimStart(s) && Blank(a) && (TrimStart(s) != [] ==> !IsWhitespace(TrimStart(s)[0]))
  {
    a := [];
    if s != [] && IsWhitespace(s[0]) {
      var rest := TrimStartSplits(s[1..]);
      a := [s[0]] + rest;
      assert s == [s[0]] + s[1..];
    }
  }

  lemma {:induction false} TrimEndSplits(s: string) returns (b: string)
    ensures s == TrimEnd(s) + b && Blank(b)
    ensures TrimEnd(s) != [] ==> TrimEnd(s)[0] == s[0] && !IsWhitespace(TrimEnd(s)[|TrimEnd(s)| - 1])
  {
    b := [];
    if s != [] && IsWhitespace(s[|s| - 1]) {
      var rest := TrimEndSplits(s[..|s| - 1]);
      b := rest + [s[|s| - 1]];
      assert s == s[..|s| - 1] + [s[|s| - 1]];
    }
  }

  lemma {:induction false} TrimSplits(s: string) returns (a: string, b: string)
    ensures s == a + Trim(s) + b && Blank(a) && Blank(b) && CleanEnds(Trim(s))
  {
    a := TrimStartSplits(s);
    b := TrimEndSplits(TrimStart(s));
    var t, trimmed := TrimStart(s), Trim(s);
    hide TrimStart, TrimEnd, Blank, IsWhitespace;
    assert t == trimmed + b;
    assert a + trimmed + b == a + t;
  }

  lemma {:induction false} TrimIsEmptyExactly(s: string)
    ensures Trim(s) == [] <==> Blank(s)
  {
    var a, b := TrimSplits(s);
    if Blank(s) {
      TrimOfPadded(s, [], []);
      assert s + [] + [] == s;
    }
  }

  // ----- Entries -----

  /** A quoted name, a colon and a number, with blanks around each. */
  ghost predicate IsEntry(entry: string, name: string, n: int) {
    exists a: string, b: string, c: string, number: string, d: string :: IsLaidOut(entry, name, n, a, b, c, number, d)
  }

  ghost predicate IsLaidOut(entry: string, name: string, n: int, a: string, b: string, c: string, number: string,
                            d: string) {
    && Blank(a) && Blank(b) && Blank(c) && Blank(d) && ':' !in name && IsNumber(number, n)
    && entry == a + ("\"" + name + "\"") + b + ":" + (c + number + d)
  }

  lemma {:induction false} LaidOutReads(entry: string, name: string, n: int, a: string, b: string, c: string,
                                        number: string, d: string)
    requires IsLaidOut(entry, name, n, a, b, c, number, d)
    ensures ParseEntry(entry) == Ok((name, n))
  {
    var quoted, right := "\"" + name + "\"", c + number + d;
    var left := a + quoted + b;
    TrimOfPadded(a, quoted, b);
    NumberHasCleanEnds(number, n);
    TrimOfPadded(c, number, d);
    NumberReadsExactly(number, n);
    BlankHasNoColon(a);
    BlankHasNoColon(b);
    hide Trim, IsNumber, Blank, CleanEnds, ParseI32;
    FirstIndexIs(entry, ':', |left|) by {
      assert entry[..|left|] == left;
    }
    SidesRead(entry, left, right, name, n);
  }

  lemma BlankHasNoColon(s: string)
    requires Blank(s)
    ensures ':' !in s
  {
    assert forall i: nat :: i < |s| ==> s[i] != ':';
  }

  lemma {:induction false} SidesRead(entry: string, left: string, right: string, name: string, n: int)
    requires entry == left + ":" + right && FirstIndex(entry, ':') == |left|
    requires Trim(left) == "\"" + name + "\"" && ParseI32(Trim(right)) == Some(n)
    ensures ParseEntry(entry) == Ok((name, n))
  {
    hide Trim, FirstIndex, ParseI32;
    assert entry[..|left|] == left && entry[|left| + 1..] == right;
    var key := Trim(left);
    assert key[1..] == name + "\"";
    assert key[1..][..|name|] == name;
  }

  lemma {:induction false} ReadEntryHasSides(entry: string, name: string, n: int) returns (left: string, right: string)
    requires ParseEntry(entry) == Ok((name, n))
    ensures entry == left + ":" + right && ':' !in left
    ensures Trim(left) == "\"" + name + "\"" && ParseI32(Trim(right)) == Some(n)
  {
    hide Trim, ParseI32;
    var colon := FirstIndex(entry, ':');
    hide FirstIndex;
    left, right := entry[..colon], entry[colon + 1..];
    var key := Trim(left);
    var unquoted := key[1..];
    assert key == [key[0]] + unquoted && unquoted == name + [unquoted[|unquoted| - 1]];
  }

  lemma {:induction false} ReadEntryIsLaidOut(entry: string, name: string, n: int)
    requires ParseEntry(entry) == Ok((name, n))
    ensures IsEntry(entry, name, n)
  {
    hide ParseEntry, ParseI32, Trim, Blank, CleanEnds, IsNumber;
    var left, right := ReadEntryHasSides(entry, name, n);
    var a, b := TrimSplits(left);
    var c, d := TrimSplits(right);
    NumberReadsExactly(Trim(right), n);
    NameHasNoColon(left, a, name, b);
    assert IsLaidOut(entry, name, n, a, b, c, Trim(right), d);
  }

  lemma NameHasNoColon(left: string, a: string, name: string, b: string)
    requires ':' !in left && left == a + ("\"" + name + "\"") + b
    ensures ':' !in name
  {
    assert forall i: nat :: i < |name| ==> name[i] == left[|a| + 1 + i];
  }

  /** An entry is read as a name and a number exactly when it is laid out so, whatever the blanks. */
  lemma {:induction false} EntryReadsExactly(entry: string, name: string, n: int)
    ensures ParseEntry(entry) == Ok((name, n)) <==> IsEntry(entry, name, n)
  {
    hide ParseEntry, IsLaidOut;
    if ParseEntry(entry) == Ok((name, n)) {
      ReadEntryIsLaidOut(entry, name, n);
    }
    if IsEntry(entry, name, n) {
      var a, b, c, number, d :| IsLaidOut(entry, name, n, a, b, c, number, d);
      LaidOutReads(entry, name, n, a, b, c, number, d);
    }
  }

  lemma {:induction false} TrimOfLaidOut(entry: string, name: string, n: int, a: string, b: string, c: string,
                                         number: string, d: string)
    requires IsLaidOut(entry, name, n, a, b, c, number, d)
    ensures Trim(entry) != [] && IsEntry(Trim(entry), name, n)
  {
    var core := "\"" + name + "\"" + b + ":" + (c + number);
    NumberHasCleanEnds(number, n);
    hide IsNumber, Trim;
    assert Blank([]) && CleanEnds(core) by {
      assert core[0] == '"' && core[|core| - 1] == number[|number| - 1];
    }
    hide Blank, CleanEnds;
    assert entry == a + core + d;
    TrimOfPadded(a, core, d);
    assert c + number + [] == c + number;
    assert core == [] + ("\"" + name + "\"") + b + ":" + (c + number + []);
    assert IsLaidOut(core, name, n, [], b, c, number, []);
  }

  lemma {:induction false} PaddedIsLaidOut(x: string, y: string, entry: string, name: string, n: int, a: string,
                                           b: string, c: string, number: string, d: string)
    requires Blank(x) && Blank(y) && IsLaidOut(entry, name, n, a, b, c, number, d)
    ensures IsEntry(x + entry + y, name, n)
  {
    assert Blank(x + a) && Blank(d + y);
    hide Blank, IsNumber;
    var right := c + number + d;
    assert c + number + (d + y) == right + y;
    assert x + entry + y == (x + a) + ("\"" + name + "\"") + b + ":" + (right + y);
    assert IsLaidOut(x + entry + y, name, n, x + a, b, c, number, d + y);
  }

  lemma {:induction false} TrimmedEntry(entry: string, name: string, n: int)
    ensures IsEntry(Trim(entry), name, n) <==> IsEntry(entry, name, n)
    ensures IsEntry(entry, name, n) ==> Trim(entry) != []
  {
    hide IsLaidOut, Trim, Blank, CleanEnds;
    if IsEntry(entry, name, n) {
      var a, b, c, number, d :| IsLaidOut(entry, name, n, a, b, c, number, d);
      TrimOfLaidOut(entry, name, n, a, b, c, number, d);
    }
    if IsEntry(Trim(entry), name, n) {
      var a, b, c, number, d :| IsLaidOut(Trim(entry), name, n, a, b, c, number, d);
      var x, y := TrimSplits(entry);
      PaddedIsLaidOut(x, y, Trim(entry), name, n, a, b, c, number, d);
    }
  }

  // ----- Whole texts -----

  function Join(parts: seq<string>): string {
    if parts == [] then []
    else if |parts| == 1 then parts[0]
    else Join(parts[..|parts| - 1]) + "," + parts[|parts| - 1]
  }

  predicate NoCommas(parts: seq<string>) {
    forall i: nat :: i < |parts| ==> ',' !in parts[i]
  }

  /** Each part is blank or an entry, and the entries are the pairs in order. */
  ghost predicate Reads(parts: seq<string>, pairs: seq<Pair>) {
    if parts == [] then pairs == []
    else
      var init, last := parts[..|parts| - 1], parts[|parts| - 1];
      || (Blank(last) && Reads(init, pairs))
      || (pairs != [] && IsEntry(last, pairs[|pairs| - 1].0, pairs[|pairs| - 1].1)
          && Reads(init, pairs[..|pairs| - 1]))
  }

  /** Braces around comma-separated parts, with blanks outside. */
  ghost predicate IsText(src: string, pairs: seq<Pair>) {
    exists a: string, parts: seq<string>, b: string :: IsTextOfParts(src, pairs, a, parts, b)
  }

  ghost predicate IsTextOfParts(src: string, pairs: seq<Pair>, a: string, parts: seq<string>, b: string) {
    && Blank(a) && Blank(b) && parts != [] && NoCommas(parts) && Reads(parts, pairs)
    && src == a + ("{" + Join(parts) + "}") + b
  }

  lemma {:induction false} PartsReadExactly(parts: seq<string>, pairs: seq<Pair>)
    ensures ParseEntries(parts) == Ok(pairs) <==> Reads(parts, pairs)
    decreases |parts|
  {
    hide Trim, ParseEntry, IsEntry, Blank;
    if parts != [] {
      var init, last := parts[..|parts| - 1], parts[|parts| - 1];
      PartsReadExactly(init, pairs);
      TrimIsEmptyExactly(last);
      if ParseEntries(init).Ok? {
        PartsReadExactly(init, ParseEntries(init).value);
      }
      if pairs != [] {
        var pair := pairs[|pairs| - 1];
        PartsReadExactly(init, pairs[..|pairs| - 1]);
        EntryReadsExactly(Trim(last), pair.0, pair.1);
        TrimmedEntry(last, pair.0, pair.1);
        assert pair == (pair.0, pair.1) && pairs == pairs[..|pairs| - 1] + [pair];
      }
    }
  }

  lemma {:induction false} SplitOfJoin(parts: seq<string>)
    requires parts != [] && NoCommas(parts)
    ensures SplitOn(Join(parts), ',') == parts
  {
    var init, last := parts[..|parts| - 1], parts[|parts| - 1];
    assert parts == init + [last];
    if |parts| == 1 {
      SplitWithout(last, ',');
    } else {
      SplitOfJoin(init);
      SplitAtSeparator(Join(init), ',', last);
    }
  }

  lemma {:induction false} JoinPrepends(first: string, rest: seq<string>)
    requires rest != []
    ensures Join([first] + rest) == first + "," + Join(rest)
  {
    var parts := [first] + rest;
    assert parts[..|parts| - 1] == [first] + rest[..|rest| - 1];
    if |rest| == 1 {
      assert rest[..0] == [] && [first] + rest[..0] == [first];
    } else {
      JoinPrepends(first, rest[..|rest| - 1]);
    }
  }

  /** A character put before the first part comes first in the joined text. */
  lemma {:induction false} JoinWithLongerFirst(c: char, rest: seq<string>)
    requires rest != []
    ensures Join([[c] + rest[0]] + rest[1..]) == [c] + Join(rest)
  {
    var first, others := rest[0], rest[1..];
    assert rest == [first] + others;
    if others == [] {
      assert [[c] + first] + others == [[c] + first];
    } else {
      JoinPrepends(first, others);
      JoinPrepends([c] + first, others);
      hide Join;
      assert [c] + first + "," + Join(others) == [c] + (first + "," + Join(others));
    }
  }

  lemma {:induction false} JoinOfSplit(s: string)
    ensures Join(SplitOn(s, ',')) == s
  {
    if s != [] {
      var rest := SplitOn(s[1..], ',');
      JoinOfSplit(s[1..]);
      hide Join;
      assert s == [s[0]] + s[1..];
      if s[0] == ',' {
        JoinPrepends([], rest);
        assert [] + "," + Join(rest) == "," + Join(rest);
      } else {
        JoinWithLongerFirst(s[0], rest);
      }
    }
  }

  /** The reader accepts exactly the texts of the grammar, with the pairs they lay out. */
  lemma {:induction false} TextReadsExactly(src: string, pairs: seq<Pair>)
    ensures Parse(src) == Ok(pairs) <==> IsText(src, pairs)
  {
    hide Reads, ParseEntries, SplitOn, Join;
    if Parse(src) == Ok(pairs) {
      ParsedTextIsLaidOut(src, pairs);
    }
    if IsText(src, pairs) {
      var a, parts, b :| IsTextOfParts(src, pairs, a, parts, b);
      var braced := "{" + Join(parts) + "}";
      TrimOfPadded(a, braced, b);
      hide Trim;
      SplitOfJoin(parts);
      assert braced[1..|braced| - 1] == Join(parts);
      PartsReadExactly(parts, pairs);
    }
  }

  lemma {:induction false} ParsedTextIsLaidOut(src: string, pairs: seq<Pair>)
    requires Parse(src) == Ok(pairs)
    ensures IsText(src, pairs)
  {
    hide Reads, ParseEntries, SplitOn, Join;
    var a, b := TrimSplits(src);
    var t := Trim(src);
    hide Trim;
    var inner := t[1..|t| - 1];
    var parts := SplitOn(inner, ',');
    assert t == "{" + inner + "}";
    JoinOfSplit(inner);
    PiecesLackSeparator(inner, ',');
    PartsReadExactly(parts, pairs);
    assert IsTextOfParts(src, pairs, a, parts, b);
  }

  // ----- Errors -----

  predicate Quotes(s: string, name: string) {
    s == "\"" + name + "\""
  }

  /** An entry fails for want of a colon, then of quotes around its name, then of a number, in this order. */
  lemma {:induction false} EntryErrorsExactly(entry: string, left: string, right: string)
    requires ':' !in left
    ensures ParseEntry(entry) == Err(MissingColon) <==> ':' !in entry
    ensures entry == left + ":" + right ==>
              && (ParseEntry(entry) == Err(UnquotedKey) <==> forall name: string :: !Quotes(Trim(left), name))
              && (ParseEntry(entry) == Err(BadInteger) <==>
                    ParseI32(Trim(right)).None? && exists name: string :: Quotes(Trim(left), name))
  {
    hide Trim, ParseI32;
    if entry == left + ":" + right {
      FirstIndexIs(entry, ':', |left|);
      assert entry[..|left|] == left && entry[|left| + 1..] == right;
      QuotedExactly(Trim(left));
    }
    hide FirstIndex, Quotes;
  }

  lemma {:induction false} QuotedExactly(key: string)
    ensures (exists name: string :: Quotes(key, name)) <==>
              key != [] && key[0] == '"' && key[1..] != [] && key[1..][|key[1..]| - 1] == '"'
  {
    if key != [] && key[0] == '"' && key[1..] != [] && key[1..][|key[1..]| - 1] == '"' {
      assert Quotes(key, key[1..|key| - 1]);
    }
    if name: string :| Quotes(key, name) {
      assert key[1..] == name + "\"";
    }
  }

  /** The first entry that fails gives the error. */
  lemma {:induction false} FirstBadEntryDecides(parts: seq<string>, i: nat)
    requires i < |parts| && ParseEntries(parts[..i]).Ok?
    requires Trim(parts[i]) != [] && ParseEntry(Trim(parts[i])).Err?
    ensures ParseEntries(parts) == Err(ParseEntry(Trim(parts[i])).error)
  {
    hide ParseEntry, Trim;
    assert parts[..i + 1][..i] == parts[..i];
    EarlierErrorWins(parts, i + 1);
  }

  /** A text fails as a whole exactly when, blanks aside, it is not in braces. */
  lemma {:induction false} BracesExactly(src: string)
    ensures Parse(src) == Err(NotAnObject) <==> forall inner: string :: !InBraces(Trim(src), inner)
  {
    hide Trim, ParseEntries;
    var t := Trim(src);
    if t != [] && t[0] == '{' && t[|t| - 1] == '}' {
      assert InBraces(t, t[1..|t| - 1]);
      EntriesHaveOtherErrors(SplitOn(t[1..|t| - 1], ','));
    }
  }

  lemma {:induction false} EntriesHaveOtherErrors(parts: seq<string>)
    ensures ParseEntries(parts) != Err(NotAnObject)
  {
    if parts != [] {
      EntriesHaveOtherErrors(parts[..|parts| - 1]);
    }
  }

  predicate InBraces(s: string, inner: string) {
    s == "{" + inner + "}"
  }

  /** A name that occurs in several pairs keeps the number of the last one. */
  lemma {:induction false} LastPairWins(pairs: seq<Pair>, i: nat)
    requires i < |pairs| && forall j: nat :: i < j < |pairs| ==> pairs[j].0 != pairs[i].0
    ensures pairs[i].0 in MapOf(pairs) && MapOf(pairs)[pairs[i].0] == pairs[i].1
  {
    if i < |pairs| - 1 {
      LastPairWins(pairs[..|pairs| - 1], i);
    }
  }

  /** A text loads as a map exactly when it lays out pairs that give this map. */
  lemma {:induction false} MapReadsExactly(src: string, m: map<string, int>)
    ensures ReadMap(src) == Some(m) <==> exists pairs: seq<Pair> :: IsText(src, pairs) && MapOf(pairs) == m
  {
    hide IsText, Parse, MapOf;
    if Parse(src).Ok? {
      TextReadsExactly(src, Parse(src).value);
    }
    if pairs: seq<Pair> :| IsText(src, pairs) && MapOf(pairs) == m {
      TextReadsExactly(src, pairs);
    }
  }

  // ----- What the printer writes -----

  /** JSON's meaning of a backslash before a quote or a backslash (section 7 of RFC 8259). */
  function Unescape(s: string): string {
    if s == [] then []
    else if s[0] == '\\' && |s| >= 2 then [s[1]] + Unescape(s[2..])
    else [s[0]] + Unescape(s[1..])
  }

  lemma {:induction false} EscapePrepends(c: char, rest: string)
    ensures Escape([c] + rest) == EscapeChar(c) + Escape(rest)
  {
    var name := [c] + rest;
    if rest == [] {
      assert name[..0] == [] && Escape(name[..0]) == [];
    } else {
      assert name[..|name| - 1] == [c] + rest[..|rest| - 1];
      EscapePrepends(c, rest[..|rest| - 1]);
    }
  }

  /** A JSON reader that undoes escapes gets the name back. */
  lemma {:induction false} EscapeIsJson(name: string)
    ensures Unescape(Escape(name)) == name
  {
    if name != [] {
      var c, rest := name[0], name[1..];
      assert name == [c] + rest;
      EscapePrepends(c, rest);
      EscapeIsJson(rest);
      var text := EscapeChar(c) + Escape(rest);
      assert text[|EscapeChar(c)|..] == Escape(rest);
    }
  }

  lemma EscapeOfPlain(c: char)
    requires c != '"' && c != '\\'
    ensures Escape([c]) == [c]
  {
    assert [c][..0] == [] && Escape([c][..0]) == [];
  }

  lemma EscapesExample()
    ensures Escape("a") == "a" && Escape("b\"") == "b\\\""
  {
    EscapeOfPlain('a');
    EscapeOfPlain('b');
    assert "b\""[..1] == "b";
  }

  /** A printed number has no plus sign, a minus sign only if it is negative, and no leading zero unless it is zero. */
  lemma {:induction false} PrintedIntIsCanonical(n: int)
    ensures PrintInt(0) == "0"
    ensures n > 0 ==> '1' <= PrintInt(n)[0] <= '9'
    ensures n < 0 ==> PrintInt(n)[0] == '-' && |PrintInt(n)| > 1 && '1' <= PrintInt(n)[1] <= '9'
  {
    if n > 0 {
      FirstDigitIsNotZero(n);
    } else if n < 0 {
      FirstDigitIsNotZero(-n);
    }
  }

  lemma {:induction false} FirstDigitIsNotZero(n: nat)
    requires n > 0
    ensures PrintNat(n) != [] && '1' <= PrintNat(n)[0] <= '9'
  {
    if n >= 10 {
      FirstDigitIsNotZero(n / 10);
    }
  }

  lemma NumbersExample()
    ensures PrintInt(1) == "1" && PrintInt(-23) == "-23"
  {
    assert PrintNat(1) == "1" && PrintNat(2) == "2" && PrintNat(23) == "23";
  }

  /** An entry to the letter: a quoted name with its escapes, a colon and a number, and no blanks. */
  lemma {:induction false} PrintedEntryExample()
    ensures PrintEntry(("b\"", -23)) == "\"b\\\"\":-23" && PrintEntry(("a", 1)) == "\"a\":1"
  {
    hide Escape, PrintInt;
    EscapesExample();
    NumbersExample();
  }

  /** Commas between the entries, braces around them, and no blanks. */
  lemma {:induction false} PrintedTextExample(x: Pair, y: Pair)
    ensures Print([x, y]) == "{" + PrintEntry(x) + "," + PrintEntry(y) + "}"
    ensures Print([x]) == "{" + PrintEntry(x) + "}" && Print([]) == "{}"
  {
    hide PrintEntry;
    var none: seq<Pair> := [];
    assert [x][..0] == none && PrintEntries(none) == [];
    assert PrintEntries([x]) == PrintEntry(x);
    assert [x, y][..1] == [x];
    assert PrintEntries([x, y]) == PrintEntry(x) + "," + PrintEntry(y);
    assert "{" + (PrintEntry(x) + "," + PrintEntry(y)) + "}" == "{" + PrintEntry(x) + "," + PrintEntry(y) + "}";
  }

  // ----- The order of names -----

  /** Names are ordered by their first difference; a name comes before the names it is a proper prefix of. */
  lemma {:induction false} LessIsLexicographic(a: string, b: string)
    ensures Less(a, b) <==>
              exists i: nat :: i <= |a| && i < |b| && a[..i] == b[..i] && (i == |a| || a[i] < b[i])
  {
    if Less(a, b) {
      if a == [] {
        assert a[..0] == b[..0];
      } else if a[0] < b[0] {
        assert a[..0] == b[..0] && a[0] < b[0];
      } else {
        LessIsLexicographic(a[1..], b[1..]);
        var i: nat :| i <= |a[1..]| && i < |b[1..]| && a[1..][..i] == b[1..][..i]
          && (i == |a[1..]| || a[1..][i] < b[1..][i]);
        assert a[..i + 1] == [a[0]] + a[1..][..i] && b[..i + 1] == [b[0]] + b[1..][..i];
        assert i + 1 == |a| || a[i + 1] < b[i + 1];
      }
    }
    if i: nat :| i <= |a| && i < |b| && a[..i] == b[..i] && (i == |a| || a[i] < b[i]) {
      if i > 0 {
        assert a[0] == a[..i][0] == b[..i][0] == b[0];
        LessIsLexicographic(a[1..], b[1..]);
        assert a[1..][..i - 1] == a[..i][1..] == b[..i][1..] == b[1..][..i - 1];
        assert i - 1 == |a[1..]| || a[1..][i - 1] < b[1..][i - 1];
      }
    }
  }
}
