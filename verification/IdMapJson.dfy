/**
 The id map of a blocky type library, its JSON printer and its hand-written JSON reader.

 The printer escapes `"` and `\`; the reader splits on `,` and `:` wherever they stand and
 does not undo escapes. The round trip theorem below says exactly which maps survive.
 */
module IdMapJson {
  import opened Geometry

  datatype ParseError = NotAnObject | MissingColon | UnquotedKey | BadInteger

  type Pair = (string, int)

  // ----- Text -----

  /** The characters `str::trim` removes: those with the Unicode property White_Space. */
  predicate IsWhitespace(c: char) {
    || '\U{0009}' <= c <= '\U{000D}' || c == ' ' || c == '\U{0085}' || c == '\U{00A0}' || c == '\U{1680}'
    || '\U{2000}' <= c <= '\U{200A}' || c == '\U{2028}' || c == '\U{2029}' || c == '\U{202F}'
    || c == '\U{205F}' || c == '\U{3000}'
  }

  function TrimStart(s: string): string {
    if s != [] && IsWhitespace(s[0]) then TrimStart(s[1..]) else s
  }

  function TrimEnd(s: string): string {
    if s != [] && IsWhitespace(s[|s| - 1]) then TrimEnd(s[..|s| - 1]) else s
  }

  function Trim(s: string): string {
    TrimEnd(TrimStart(s))
  }

  /** The pieces of `s` between occurrences of `c`; one empty piece when `s` is empty. */
  function SplitOn(s: string, c: char): (parts: seq<string>)
    ensures parts != []
  {
    if s == [] then [[]]
    else
      var rest := SplitOn(s[1..], c);
      if s[0] == c then [[]] + rest else [[s[0]] + rest[0]] + rest[1..]
  }

  /** The index of the first `c`, or the length of `s` when there is none. */
  function FirstIndex(s: string, c: char): (i: nat)
    ensures i <= |s| && c !in s[..i]
    ensures i < |s| ==> s[i] == c
  {
    if s == [] || s[0] == c then 0 else 1 + FirstIndex(s[1..], c)
  }

  predicate IsDigit(c: char) {
    '0' <= c <= '9'
  }

  predicate AllDigits(s: string) {
    forall i: nat :: i < |s| ==> IsDigit(s[i])
  }

  function DigitsValue(s: string): nat
    requires AllDigits(s)
  {
    if s == [] then 0 else DigitsValue(s[..|s| - 1]) * 10 + (s[|s| - 1] as int - '0' as int)
  }

  /** `str::parse::<i32>`: an optional sign, at least one digit, a value in range. */
  function ParseI32(s: string): Option<int> {
    var negative := s != [] && s[0] == '-';
    var digits := if s != [] && (s[0] == '-' || s[0] == '+') then s[1..] else s;
    if digits == [] || !AllDigits(digits) then None
    else
      var magnitude: int := DigitsValue(digits);
      var n := if negative then -magnitude else magnitude;
      if IsI32(n) then Some(n) else None
  }

  function PrintNat(n: nat): (s: string)
    ensures s != [] && AllDigits(s) && DigitsValue(s) == n
  {
    var digit := ['0' + (n % 10) as char];
    if n < 10 then
      assert digit[..0] == [];
      digit
    else
      var s := PrintNat(n / 10) + digit;
      assert s[..|s| - 1] == PrintNat(n / 10);
      s
  }

  function PrintInt(n: int): string {
    if n < 0 then "-" + PrintNat(-n) else PrintNat(n)
  }

  lemma {:induction false} PrintedIntParses(n: int)
    requires IsI32(n)
    ensures ParseI32(PrintInt(n)) == Some(n)
  {
    if n < 0 {
      assert PrintInt(n)[1..] == PrintNat(-n);
    } else {
      assert IsDigit(PrintNat(n)[0]);
    }
  }

  // ----- The reader -----

  function ParseEntry(entry: string): Result<Pair, ParseError> {
    var colon := FirstIndex(entry, ':');
    if colon == |entry| then Err(MissingColon)
    else
      var key := Trim(entry[..colon]);
      var value := Trim(entry[colon + 1..]);
      if key == [] || key[0] != '"' then Err(UnquotedKey)
      else
        var unquoted := key[1..];
        if unquoted == [] || unquoted[|unquoted| - 1] != '"' then Err(UnquotedKey)
        else
          match ParseI32(value)
          case None => Err(BadInteger)
          case Some(n) => Ok((unquoted[..|unquoted| - 1], n))
  }

  /** The pairs of the entries in order, or the first error. Blank entries are skipped. */
  function ParseEntries(parts: seq<string>): Result<seq<Pair>, ParseError> {
    if parts == [] then Ok([])
    else
      match ParseEntries(parts[..|parts| - 1])
      case Err(e) => Err(e)
      case Ok(pairs) =>
        var entry := Trim(parts[|parts| - 1]);
        if entry == [] then Ok(pairs)
        else
          match ParseEntry(entry)
          case Err(e) => Err(e)
          case Ok(pair) => Ok(pairs + [pair])
  }

  function Parse(src: string): Result<seq<Pair>, ParseError> {
    var t := Trim(src);
    if t == [] || t[0] != '{' || t[|t| - 1] != '}' then Err(NotAnObject)
    else ParseEntries(SplitOn(t[1..|t| - 1], ','))
  }

  method ParseFlatJsonObjectI32(src: string) returns (r: Result<seq<Pair>, ParseError>)
    ensures r == Parse(src)
  {
    hide Trim, SplitOn, ParseEntry;
    var trimmed := Trim(src);
    if trimmed == [] || trimmed[0] != '{' || trimmed[|trimmed| - 1] != '}' {
      return Err(NotAnObject);
    }
    var parts := SplitOn(trimmed[1..|trimmed| - 1], ',');
    var result: seq<Pair> := [];
    for i := 0 to |parts|
      invariant ParseEntries(parts[..i]) == Ok(result)
    {
      assert parts[..i + 1][..i] == parts[..i];
      var entry := Trim(parts[i]);
      if entry == [] {
        continue;
      }
      var parsed := ParseEntry(entry);
      if parsed.Err? {
        EarlierErrorWins(parts, i + 1);
        return Err(parsed.error);
      }
      result := result + [parsed.value];
    }
    assert parts[..|parts|] == parts;
    return Ok(result);
  }

  lemma {:induction false} EarlierErrorWins(parts: seq<string>, n: nat)
    requires n <= |parts| && ParseEntries(parts[..n]).Err?
    ensures ParseEntries(parts) == ParseEntries(parts[..n])
    decreases |parts| - n
  {
    if n < |parts| {
      assert parts[..n + 1][..n] == parts[..n];
      EarlierErrorWins(parts, n + 1);
    } else {
      assert parts[..n] == parts;
    }
  }

  /** The map that results from inserting the pairs in order. */
  function MapOf(pairs: seq<Pair>): map<string, int> {
    if pairs == [] then map[] else MapOf(pairs[..|pairs| - 1])[pairs[|pairs| - 1].0 := pairs[|pairs| - 1].1]
  }

  // ----- The printer -----

  function EscapeChar(c: char): string {
    if c == '"' then "\\\"" else if c == '\\' then "\\\\" else [c]
  }

  function Escape(name: string): string {
    if name == [] then [] else Escape(name[..|name| - 1]) + EscapeChar(name[|name| - 1])
  }

  function PrintEntry(e: Pair): string {
    "\"" + Escape(e.0) + "\":" + PrintInt(e.1)
  }

  function PrintEntries(entries: seq<Pair>): string {
    if entries == [] then []
    else
      PrintEntries(entries[..|entries| - 1]) + (if |entries| > 1 then "," else "")
      + PrintEntry(entries[|entries| - 1])
  }

  function Print(entries: seq<Pair>): string {
    "{" + PrintEntries(entries) + "}"
  }

  /** The entries list every name of `m` once, with its index. */
  ghost predicate Enumerates(entries: seq<Pair>, m: map<string, int>) {
    && (forall i: nat, j: nat :: i < j < |entries| ==> entries[i].0 != entries[j].0)
    && (forall i: nat :: i < |entries| ==> entries[i].0 in m && m[entries[i].0] == entries[i].1)
    && (forall name: string :: name in m ==> exists i: nat :: i < |entries| && entries[i].0 == name)
  }

  // ----- Round trip -----

  predicate Plain(name: string) {
    '"' !in name && '\\' !in name && ',' !in name && ':' !in name
  }

  lemma {:induction false} SplitWithout(s: string, c: char)
    requires c !in s
    ensures SplitOn(s, c) == [s]
  {
    if s != [] {
      assert s == [s[0]] + s[1..];
      SplitWithout(s[1..], c);
    }
  }

  lemma {:induction false} SplitAtSeparator(s: string, c: char, t: string)
    requires c !in t
    ensures SplitOn(s + [c] + t, c) == SplitOn(s, c) + [t]
  {
    var whole := s + [c] + t;
    if s == [] {
      assert whole[1..] == t;
      SplitWithout(t, c);
    } else {
      assert whole[1..] == s[1..] + [c] + t;
      SplitAtSeparator(s[1..], c, t);
    }
  }

  lemma {:induction false} EscapeKeepsOut(name: string, c: char)
    requires c != '\\' && c != '"'
    ensures c in name <==> c in Escape(name)
  {
    if name != [] {
      EscapeKeepsOut(name[..|name| - 1], c);
      assert name == name[..|name| - 1] + [name[|name| - 1]];
    }
  }

  lemma {:induction false} EscapeLengthens(name: string)
    ensures |Escape(name)| >= |name|
    ensures Escape(name) == name <==> '"' !in name && '\\' !in name
    ensures Escape(name) != name ==> |Escape(name)| > |name| && '\\' in Escape(name)
  {
    if name != [] {
      var init, last := name[..|name| - 1], name[|name| - 1];
      assert name == init + [last];
      EscapeLengthens(init);
      if Escape(name) == name {
        assert |Escape(init)| == |init|;
      }
    }
  }

  lemma NumberText(n: int)
    ensures var s := PrintInt(n);
            s != [] && ',' !in s && ':' !in s && !IsWhitespace(s[0]) && !IsWhitespace(s[|s| - 1])
  {
    var s := PrintInt(n);
    var digits := PrintNat(if n < 0 then -n else n);
    assert forall i: nat :: i < |digits| ==> IsDigit(digits[i]);
    assert s[|s| - 1] == digits[|digits| - 1];
  }

  lemma TrimIsIdentity(s: string)
    requires s != [] ==> !IsWhitespace(s[0]) && !IsWhitespace(s[|s| - 1])
    ensures Trim(s) == s
  {
  }

  lemma {:induction false} FirstIndexIs(s: string, c: char, i: nat)
    requires i < |s| && s[i] == c && c !in s[..i]
    ensures FirstIndex(s, c) == i
  {
    var j := FirstIndex(s, c);
    assert forall k: nat :: k < i ==> s[k] == s[..i][k] != c;
    assert forall k: nat :: k < j ==> s[k] == s[..j][k] != c;
  }

  /** A printed entry whose name has no colon is read as the escaped name and the index. */
  lemma {:induction false} PrintedEntryParses(e: Pair)
    requires ':' !in e.0 && IsI32(e.1)
    ensures Trim(PrintEntry(e)) == PrintEntry(e) != [] && ParseEntry(PrintEntry(e)) == Ok((Escape(e.0), e.1))
  {
    var text, name, number := PrintEntry(e), Escape(e.0), PrintInt(e.1);
    NumberText(e.1);
    assert text[0] == '"' && text[|text| - 1] == number[|number| - 1];
    TrimIsIdentity(text);
    EscapeKeepsOut(e.0, ':');
    var quoted := "\"" + name + "\"";
    assert text == quoted + ":" + number;
    PrintedIntParses(e.1);
    EntryText(quoted, number, name);
  }

  lemma EntryParts(quoted: string, number: string, name: string)
    requires quoted == "\"" + name + "\"" && ':' !in name
    ensures var text := quoted + ":" + number;
            text[..|quoted|] == quoted && text[|quoted|] == ':' && text[|quoted| + 1..] == number
    ensures ':' !in quoted && quoted[0] == '"' == quoted[|quoted| - 1]
    ensures quoted[1..] == name + "\"" && (name + "\"")[..|name|] == name
  {
  }

  lemma {:induction false} EntryText(quoted: string, number: string, name: string)
    requires quoted == "\"" + name + "\"" && ':' !in name
    requires number != [] && !IsWhitespace(number[0]) && !IsWhitespace(number[|number| - 1])
    requires ParseI32(number).Some?
    ensures ParseEntry(quoted + ":" + number) == Ok((name, ParseI32(number).value))
  {
    hide Trim, ParseI32, FirstIndex;
    var text := quoted + ":" + number;
    EntryParts(quoted, number, name);
    FirstIndexIs(text, ':', |quoted|);
    TrimIsIdentity(quoted);
    TrimIsIdentity(number);
  }

  function Escaped(entries: seq<Pair>): (r: seq<Pair>)
    ensures |r| == |entries|
  {
    if entries == [] then []
    else
      var last := entries[|entries| - 1];
      Escaped(entries[..|entries| - 1]) + [(Escape(last.0), last.1)]
  }

  predicate NoSeparators(entries: seq<Pair>) {
    forall i: nat :: i < |entries| ==> ',' !in entries[i].0 && ':' !in entries[i].0 && IsI32(entries[i].1)
  }

  /** Without separators in the names, the reader returns the escaped names and the indices. */
  lemma {:induction false} PrintedEntriesParse(entries: seq<Pair>)
    requires NoSeparators(entries)
    ensures ParseEntries(SplitOn(PrintEntries(entries), ',')) == Ok(Escaped(entries))
  {
    if entries == [] {
      var blank: seq<string> := [[]];
      assert blank[..0] == [];
      assert ParseEntries(blank) == Ok([]);
    } else {
      var init, last := entries[..|entries| - 1], entries[|entries| - 1];
      var head := if init == [] then [] else SplitOn(PrintEntries(init), ',');
      assert ParseEntries(head) == Ok(Escaped(init)) by {
        PrintedEntriesParse(init);
      }
      PrintedEntryParses(last);
      OneMoreEntry(head, PrintEntry(last), Escaped(init));
      PrintedEntriesSplit(entries);
    }
  }

  lemma {:induction false} PrintedEntriesSplit(entries: seq<Pair>)
    requires NoSeparators(entries) && entries != []
    ensures var init, text := entries[..|entries| - 1], PrintEntry(entries[|entries| - 1]);
            SplitOn(PrintEntries(entries), ',')
            == (if init == [] then [] else SplitOn(PrintEntries(init), ',')) + [text]
  {
    var init, last := entries[..|entries| - 1], entries[|entries| - 1];
    EscapeKeepsOut(last.0, ',');
    NumberText(last.1);
    if init == [] {
      assert PrintEntries(entries) == PrintEntry(last);
      SplitWithout(PrintEntry(last), ',');
    } else {
      assert PrintEntries(entries) == PrintEntries(init) + [','] + PrintEntry(last);
      SplitAtSeparator(PrintEntries(init), ',', PrintEntry(last));
    }
  }

  lemma {:induction false} OneMoreEntry(parts: seq<string>, text: string, pairs: seq<Pair>)
    requires ParseEntries(parts) == Ok(pairs)
    requires Trim(text) == text != [] && ParseEntry(text).Ok?
    ensures ParseEntries(parts + [text]) == Ok(pairs + [ParseEntry(text).value])
  {
    assert (parts + [text])[..|parts|] == parts;
  }

  lemma {:induction false} PrintedParses(entries: seq<Pair>)
    ensures Parse(Print(entries)) == ParseEntries(SplitOn(PrintEntries(entries), ','))
  {
    var text := Print(entries);
    TrimIsIdentity(text);
    assert text[1..|text| - 1] == PrintEntries(entries);
  }

  // ----- When the text does not come back -----

  lemma {:induction false} TrimKeepsOut(s: string, c: char)
    requires c !in s
    ensures c !in Trim(s)
  {
    TrimStartIsSuffix(s);
    TrimEndIsPrefix(TrimStart(s));
  }

  lemma {:induction false} TrimStartIsSuffix(s: string)
    ensures forall c :: c in TrimStart(s) ==> c in s
  {
    if s != [] && IsWhitespace(s[0]) {
      TrimStartIsSuffix(s[1..]);
    }
  }

  lemma {:induction false} TrimEndIsPrefix(s: string)
    ensures forall c :: c in TrimEnd(s) ==> c in s
  {
    if s != [] && IsWhitespace(s[|s| - 1]) {
      TrimEndIsPrefix(s[..|s| - 1]);
    }
  }

  lemma {:induction false} PiecesLackSeparator(s: string, c: char)
    ensures forall i: nat :: i < |SplitOn(s, c)| ==> c !in SplitOn(s, c)[i]
  {
    if s != [] {
      PiecesLackSeparator(s[1..], c);
      assert SplitOn(s[1..], c)[0] in SplitOn(s[1..], c);
    }
  }

  predicate KeyIsClean(pair: Pair) {
    ',' !in pair.0 && ':' !in pair.0
  }

  lemma {:induction false} ParsedKeyIsClean(entry: string)
    requires ',' !in entry && ParseEntry(entry).Ok?
    ensures KeyIsClean(ParseEntry(entry).value)
  {
    var before := entry[..FirstIndex(entry, ':')];
    TrimKeepsOut(before, ',');
    TrimKeepsOut(before, ':');
  }

  predicate KeysAreClean(pairs: seq<Pair>) {
    forall i: nat :: i < |pairs| ==> KeyIsClean(pairs[i])
  }

  /** The reader never produces a name with a separator in it. */
  lemma {:induction false} ParsedKeysAreClean(parts: seq<string>)
    requires forall i: nat :: i < |parts| ==> ',' !in parts[i]
    ensures ParseEntries(parts).Ok? ==> KeysAreClean(ParseEntries(parts).value)
  {
    if parts != [] && ParseEntries(parts).Ok? {
      var init, last := parts[..|parts| - 1], parts[|parts| - 1];
      ParsedKeysAreClean(init);
      assert ParseEntries(init).Ok? && KeysAreClean(ParseEntries(init).value);
      TrimKeepsOut(last, ',');
      if Trim(last) != [] {
        ParsedKeyIsClean(Trim(last));
        assert ParseEntries(parts).value == ParseEntries(init).value + [ParseEntry(Trim(last)).value];
      }
    }
  }

  lemma {:induction false} MapOfKeys(pairs: seq<Pair>)
    ensures forall name: string :: name in MapOf(pairs) <==> exists i: nat :: i < |pairs| && pairs[i].0 == name
  {
    if pairs != [] {
      var init, last := pairs[..|pairs| - 1], pairs[|pairs| - 1];
      MapOfKeys(init);
      forall name: string | name in MapOf(pairs)
        ensures exists i: nat :: i < |pairs| && pairs[i].0 == name
      {
        if name == last.0 {
          assert pairs[|pairs| - 1].0 == name;
        } else {
          assert name in MapOf(init);
          var i: nat :| i < |init| && init[i].0 == name;
          assert pairs[i].0 == name;
        }
      }
      forall i: nat | i < |pairs|
        ensures pairs[i].0 in MapOf(pairs)
      {
        if i < |init| {
          assert init[i].0 in MapOf(init);
        }
      }
    }
  }

  lemma {:induction false} MapOfDistinct(pairs: seq<Pair>)
    requires forall i: nat, j: nat :: i < j < |pairs| ==> pairs[i].0 != pairs[j].0
    ensures forall i: nat :: i < |pairs| ==> pairs[i].0 in MapOf(pairs) && MapOf(pairs)[pairs[i].0] == pairs[i].1
  {
    if pairs != [] {
      var init := pairs[..|pairs| - 1];
      MapOfDistinct(init);
      forall i: nat | i < |pairs|
        ensures pairs[i].0 in MapOf(pairs) && MapOf(pairs)[pairs[i].0] == pairs[i].1
      {
        if i < |init| {
          assert init[i] == pairs[i];
        }
      }
    }
  }

  lemma {:induction false} EnumerationGivesMap(entries: seq<Pair>, m: map<string, int>)
    requires Enumerates(entries, m)
    ensures MapOf(entries) == m
  {
    MapOfKeys(entries);
    MapOfDistinct(entries);
    assert MapOf(entries).Keys == m.Keys;
    forall name | name in m
      ensures MapOf(entries)[name] == m[name]
    {
      var i: nat :| i < |entries| && entries[i].0 == name;
    }
  }

  lemma {:induction false} EscapedAt(entries: seq<Pair>, i: nat)
    requires i < |entries|
    ensures Escaped(entries)[i] == (Escape(entries[i].0), entries[i].1)
  {
    if i < |entries| - 1 {
      EscapedAt(entries[..|entries| - 1], i);
    }
  }

  lemma {:induction false} PlainEntriesUnescaped(entries: seq<Pair>)
    requires forall i: nat :: i < |entries| ==> Plain(entries[i].0)
    ensures Escaped(entries) == entries
  {
    if entries != [] {
      PlainEntriesUnescaped(entries[..|entries| - 1]);
      EscapeLengthens(entries[|entries| - 1].0);
    }
  }

  predicate NeedsEscape(name: string) {
    '"' in name || '\\' in name
  }

  /** The longest of the names that need escapes, if any does. */
  lemma {:induction false} LongestEscapable(entries: seq<Pair>, n: nat) returns (i: nat)
    requires n < |entries| && NeedsEscape(entries[n].0)
    ensures i < |entries| && NeedsEscape(entries[i].0)
    ensures forall j: nat :: j < |entries| && NeedsEscape(entries[j].0) ==> |entries[j].0| <= |entries[i].0|
  {
    i := n;
    for k := 0 to |entries|
      invariant i < |entries| && NeedsEscape(entries[i].0)
      invariant forall j: nat :: j < k && NeedsEscape(entries[j].0) ==> |entries[j].0| <= |entries[i].0|
    {
      if NeedsEscape(entries[k].0) && |entries[k].0| > |entries[i].0| {
        i := k;
      }
    }
  }

  /** A map with an escaped name never equals the map of its escaped names. */
  lemma {:induction false} EscapedMapDiffers(entries: seq<Pair>, m: map<string, int>, n: nat)
    requires Enumerates(entries, m) && n < |entries| && NeedsEscape(entries[n].0)
    ensures MapOf(Escaped(entries)) != m
  {
    var i := LongestEscapable(entries, n);
    var name := entries[i].0;
    EscapeLengthens(name);
    EscapedAt(entries, i);
    MapOfKeys(Escaped(entries));
    assert Escaped(entries)[i].0 == Escape(name);
    assert Escape(name) in MapOf(Escaped(entries));
    assert NeedsEscape(Escape(name));
    assert forall j: nat :: j < |entries| ==> entries[j].0 != Escape(name);
  }

  /** The map that reading `src` yields, if reading succeeds. */
  function ReadMap(src: string): Option<map<string, int>> {
    match Parse(src)
    case Ok(pairs) => Some(MapOf(pairs))
    case Err(_) => None
  }

  /**
   The printed text of an id map reads back as the same map exactly when no name contains a
   quote, a backslash, a comma or a colon.
   */
  lemma {:induction false} RoundTripExactly(entries: seq<Pair>, m: map<string, int>)
    requires Enumerates(entries, m)
    requires forall name :: name in m ==> IsI32(m[name])
    ensures ReadMap(Print(entries)) == Some(m) <==> forall name :: name in m ==> Plain(name)
  {
    hide Print, Parse, PrintEntries, SplitOn, ParseEntries, Escaped, MapOf;
    PrintedParses(entries);
    var parts := SplitOn(PrintEntries(entries), ',');
    if NoSeparators(entries) {
      PrintedEntriesParse(entries);
      if i: nat :| i < |entries| && NeedsEscape(entries[i].0) {
        EscapedMapDiffers(entries, m, i);
        assert entries[i].0 in m && !Plain(entries[i].0);
      } else {
        PlainEntriesUnescaped(entries);
        EnumerationGivesMap(entries, m);
        forall name | name in m
          ensures Plain(name)
        {
          var i: nat :| i < |entries| && entries[i].0 == name;
        }
      }
    } else {
      var i: nat :| i < |entries| && !(',' !in entries[i].0 && ':' !in entries[i].0 && IsI32(entries[i].1));
      assert entries[i].0 in m && !Plain(entries[i].0);
      PiecesLackSeparator(PrintEntries(entries), ',');
      ParsedKeysAreClean(parts);
      if ParseEntries(parts).Ok? {
        MapOfKeys(ParseEntries(parts).value);
      }
    }
  }

  /** A name with a quote in it: reading succeeds and returns a different name. */
  lemma QuotedNameComesBackChanged()
    ensures Enumerates([("a\"b", 7)], map["a\"b" := 7])
    ensures ReadMap(Print([("a\"b", 7)])) != Some(map["a\"b" := 7])
  {
    var m := map["a\"b" := 7];
    assert "a\"b"[1] == '"';
    assert [("a\"b", 7)][0].0 == "a\"b";
    assert Enumerates([("a\"b", 7)], m);
    RoundTripExactly([("a\"b", 7)], m);
    assert "a\"b" in m && !Plain("a\"b");
  }

  // ----- The order entries are printed in -----

  predicate Less(a: string, b: string) {
    b != [] && (a == [] || a[0] < b[0] || (a[0] == b[0] && Less(a[1..], b[1..])))
  }

  lemma {:induction false} LessIsTotal(a: string, b: string)
    ensures a != b ==> Less(a, b) || Less(b, a)
    ensures !(Less(a, b) && Less(b, a))
    ensures !Less(a, a)
  {
    if a != [] {
      LessIsTotal(a[1..], if b == [] then [] else b[1..]);
      if b != [] && a[0] == b[0] && a[1..] == b[1..] {
        assert a == [a[0]] + a[1..] && b == [b[0]] + b[1..];
      }
    }
  }

  lemma {:induction false} LessIsTransitive(a: string, b: string, c: string)
    requires Less(a, b) && Less(b, c)
    ensures Less(a, c)
  {
    if a != [] && a[0] == b[0] && b[0] == c[0] {
      LessIsTransitive(a[1..], b[1..], c[1..]);
    }
  }

  ghost predicate Sorted(entries: seq<Pair>) {
    forall i: nat, j: nat :: i < j < |entries| ==> Less(entries[i].0, entries[j].0)
  }

  /** The printed text of a map: its entries in name order. */
  ghost predicate IsTextOf(out: string, m: map<string, int>) {
    exists entries: seq<Pair> :: Sorted(entries) && Enumerates(entries, m) && out == Print(entries)
  }

  lemma {:induction false} LastName(a: seq<Pair>, b: seq<Pair>, m: map<string, int>)
    requires Sorted(a) && Sorted(b) && Enumerates(a, m) && Enumerates(b, m) && a != []
    ensures b != [] && a[|a| - 1] == b[|b| - 1]
  {
    hide Less;
    var last := a[|a| - 1].0;
    assert last in m;
    var j: nat :| j < |b| && b[j].0 == last;
    var top := b[|b| - 1].0;
    var i: nat :| i < |a| && a[i].0 == top;
    LessIsTotal(last, top);
  }

  lemma {:induction false} WithoutLast(a: seq<Pair>, m: map<string, int>)
    requires Enumerates(a, m) && a != []
    ensures Enumerates(a[..|a| - 1], m - {a[|a| - 1].0})
  {
    var rest, init := m - {a[|a| - 1].0}, a[..|a| - 1];
    forall name: string | name in rest
      ensures exists i: nat :: i < |init| && init[i].0 == name
    {
      var i: nat :| i < |a| && a[i].0 == name;
      assert init[i].0 == name;
    }
  }

  lemma {:induction false} SortedEnumerationIsUnique(a: seq<Pair>, b: seq<Pair>, m: map<string, int>)
    requires Sorted(a) && Sorted(b) && Enumerates(a, m) && Enumerates(b, m)
    ensures a == b
  {
    hide Less, Enumerates;
    if a != [] {
      LastName(a, b, m);
      WithoutLast(a, m);
      WithoutLast(b, m);
      assert Sorted(a[..|a| - 1]) && Sorted(b[..|b| - 1]);
      SortedEnumerationIsUnique(a[..|a| - 1], b[..|b| - 1], m - {a[|a| - 1].0});
      assert a == a[..|a| - 1] + [a[|a| - 1]] && b == b[..|b| - 1] + [b[|b| - 1]];
    } else if b != [] {
      LastName(b, a, m);
    }
  }

  /** Equal maps print to equal texts, whatever order the hash map yields its entries in. */
  lemma {:induction false} TextIsUnique(out: string, out': string, m: map<string, int>)
    requires IsTextOf(out, m) && IsTextOf(out', m)
    ensures out == out'
  {
    var a: seq<Pair> :| Sorted(a) && Enumerates(a, m) && out == Print(a);
    var b: seq<Pair> :| Sorted(b) && Enumerates(b, m) && out' == Print(b);
    SortedEnumerationIsUnique(a, b, m);
  }

  /** Loading a saved id map restores it exactly when every name is plain. */
  lemma {:induction false} SavedTextRestores(out: string, m: map<string, int>)
    requires IsTextOf(out, m)
    requires forall name :: name in m ==> IsI32(m[name])
    ensures ReadMap(out) == Some(m) <==> forall name :: name in m ==> Plain(name)
  {
    var entries: seq<Pair> :| Sorted(entries) && Enumerates(entries, m) && out == Print(entries);
    RoundTripExactly(entries, m);
  }

  // ----- The name list kept beside the map -----

  function IndexOf(m: map<string, int>, name: string): int {
    if name in m then m[name] else 0
  }

  /** Inserts after every name of no greater index. */
  function InsertByIndex(names: seq<string>, name: string, m: map<string, int>): seq<string> {
    if names == [] || IndexOf(m, names[|names| - 1]) <= IndexOf(m, name) then names + [name]
    else InsertByIndex(names[..|names| - 1], name, m) + [names[|names| - 1]]
  }

  /** A stable sort of the names by their index. */
  function SortByIndex(names: seq<string>, m: map<string, int>): seq<string> {
    if names == [] then [] else InsertByIndex(SortByIndex(names[..|names| - 1], m), names[|names| - 1], m)
  }

  function WithIndex(names: seq<string>, m: map<string, int>, index: int): seq<string> {
    if names == [] then []
    else
      var last := names[|names| - 1];
      WithIndex(names[..|names| - 1], m, index) + if IndexOf(m, last) == index then [last] else []
  }

  ghost predicate OrderedByIndex(names: seq<string>, m: map<string, int>) {
    forall i: nat, j: nat :: i < j < |names| ==> IndexOf(m, names[i]) <= IndexOf(m, names[j])
  }

  lemma {:induction false} InsertAddsName(names: seq<string>, name: string, m: map<string, int>)
    ensures forall i: nat :: i < |InsertByIndex(names, name, m)| ==>
              InsertByIndex(names, name, m)[i] in names || InsertByIndex(names, name, m)[i] == name
  {
    if names != [] && IndexOf(m, names[|names| - 1]) > IndexOf(m, name) {
      InsertAddsName(names[..|names| - 1], name, m);
      assert forall x :: x in names[..|names| - 1] ==> x in names;
    }
  }

  lemma {:induction false} InsertKeepsOrder(names: seq<string>, name: string, m: map<string, int>)
    requires OrderedByIndex(names, m)
    ensures OrderedByIndex(InsertByIndex(names, name, m), m)
  {
    if names != [] && IndexOf(m, names[|names| - 1]) > IndexOf(m, name) {
      var init, last := names[..|names| - 1], names[|names| - 1];
      InsertKeepsOrder(init, name, m);
      InsertAddsName(init, name, m);
      var inner := InsertByIndex(init, name, m);
      assert forall x :: x in init ==> IndexOf(m, x) <= IndexOf(m, last);
      assert forall i: nat :: i < |inner| ==> IndexOf(m, inner[i]) <= IndexOf(m, last);
    }
  }

  lemma {:induction false} InsertKeepsIndices(names: seq<string>, name: string, m: map<string, int>, index: int)
    ensures WithIndex(InsertByIndex(names, name, m), m, index)
            == WithIndex(names, m, index) + if IndexOf(m, name) == index then [name] else []
  {
    if names == [] || IndexOf(m, names[|names| - 1]) <= IndexOf(m, name) {
      assert (names + [name])[..|names|] == names;
    } else {
      var init, last := names[..|names| - 1], names[|names| - 1];
      InsertKeepsIndices(init, name, m, index);
      var inner := InsertByIndex(init, name, m);
      assert (inner + [last])[..|inner|] == inner;
    }
  }

  /** The sort orders names by index and keeps, for each index, the same names in the same order. */
  lemma {:induction false} SortByIndexIsStable(names: seq<string>, m: map<string, int>, index: int)
    ensures OrderedByIndex(SortByIndex(names, m), m)
    ensures WithIndex(SortByIndex(names, m), m, index) == WithIndex(names, m, index)
  {
    if names != [] {
      SortByIndexIsStable(names[..|names| - 1], m, index);
      InsertKeepsOrder(SortByIndex(names[..|names| - 1], m), names[|names| - 1], m);
      InsertKeepsIndices(SortByIndex(names[..|names| - 1], m), names[|names| - 1], m, index);
    }
  }

  lemma {:induction false} InsertAddsOne(names: seq<string>, name: string, m: map<string, int>)
    ensures multiset(InsertByIndex(names, name, m)) == multiset(names) + multiset{name}
  {
    if names != [] {
      var init, last := names[..|names| - 1], names[|names| - 1];
      assert names == init + [last];
      InsertAddsOne(init, name, m);
    }
  }

  /** The sort neither drops nor repeats a name. */
  lemma {:induction false} SortByIndexPermutes(names: seq<string>, m: map<string, int>)
    ensures multiset(SortByIndex(names, m)) == multiset(names)
  {
    if names != [] {
      var init, last := names[..|names| - 1], names[|names| - 1];
      assert names == init + [last];
      SortByIndexPermutes(init, m);
      InsertAddsOne(SortByIndex(init, m), last, m);
    }
  }

  /** The names kept beside the map are the names of the pairs, by ascending index in the map. */
  lemma {:induction false} NameListIsOrdered(pairs: seq<Pair>)
    ensures var m := MapOf(pairs);
            var names := SortByIndex(Names(pairs), m);
            && multiset(names) == multiset(Names(pairs))
            && (forall name :: name in names ==> name in m)
            && (forall i: nat, j: nat :: i < j < |names| ==> m[names[i]] <= m[names[j]])
  {
    var m := MapOf(pairs);
    var names := SortByIndex(Names(pairs), m);
    SortByIndexPermutes(Names(pairs), m);
    SortByIndexIsStable(Names(pairs), m, 0);
    NamesAreKeys(pairs);
    SameMembers(names, Names(pairs));
    hide SortByIndex, MapOf, Names;
    assert forall i: nat :: i < |names| ==> names[i] in m && IndexOf(m, names[i]) == m[names[i]];
  }

  lemma SameMembers(a: seq<string>, b: seq<string>)
    requires multiset(a) == multiset(b)
    ensures forall x :: x in a ==> x in b
  {
    forall x | x in a
      ensures x in b
    {
      assert x in multiset(a);
      assert x in multiset(b);
    }
  }

  lemma {:induction false} NamesAreKeys(pairs: seq<Pair>)
    ensures forall name :: name in Names(pairs) ==> name in MapOf(pairs)
  {
    MapOfKeys(pairs);
    hide MapOf, Names;
    forall name | name in Names(pairs)
      ensures name in MapOf(pairs)
    {
      var i :| 0 <= i < |pairs| && Names(pairs)[i] == name;
      assert pairs[i].0 == name;
    }
  }

  function Names(pairs: seq<Pair>): (names: seq<string>)
    ensures |names| == |pairs|
    ensures forall i: nat :: i < |pairs| ==> names[i] == pairs[i].0
  {
    if pairs == [] then [] else Names(pairs[..|pairs| - 1]) + [pairs[|pairs| - 1].0]
  }

  // ----- The library -----

  class TypeLibrary {
    var idMap: map<string, int>
    var idMapData: seq<string>

    /** Replaces the id map; a malformed text leaves the library as it was. */
    method LoadIdMapFromJson(json: string) returns (ok: bool)
      modifies this
      ensures ok <==> ReadMap(json).Some?
      ensures ok ==> idMap == ReadMap(json).value
      ensures ok ==> idMapData == SortByIndex(Names(Parse(json).value), idMap)
      ensures ok ==> forall name :: name in idMapData ==> name in idMap
      ensures ok ==> forall i: nat, j: nat :: i < j < |idMapData| ==> idMap[idMapData[i]] <= idMap[idMapData[j]]
      ensures ok ==> multiset(idMapData) == multiset(Names(Parse(json).value))
      ensures !ok ==> idMap == old(idMap) && idMapData == old(idMapData)
    {
      var parsed := ParseFlatJsonObjectI32(json);
      if parsed.Err? {
        return false;
      }
      var pairs := parsed.value;
      idMap := map[];
      for i := 0 to |pairs|
        invariant idMap == MapOf(pairs[..i]) && idMapData == old(idMapData)
      {
        assert pairs[..i + 1][..i] == pairs[..i];
        idMap := idMap[pairs[i].0 := pairs[i].1];
      }
      assert pairs[..|pairs|] == pairs;
      idMapData := SortByIndex(Names(pairs), idMap);
      NameListIsOrdered(pairs);
      return true;
    }

    /** The entries of the id map, collected and sorted by name. */
    method SortedEntries() returns (entries: seq<Pair>)
      ensures Sorted(entries) && Enumerates(entries, idMap)
    {
      entries := [];
      var rest := idMap.Keys;
      ghost var taken: map<string, int> := map[];
      while rest != {}
        invariant rest !! taken.Keys && idMap.Keys == rest + taken.Keys
        invariant forall name :: name in taken ==> taken[name] == idMap[name]
        invariant Sorted(entries) && Enumerates(entries, taken)
        decreases rest
      {
        var name :| name in rest;
        var at := 0;
        while at < |entries| && Less(entries[at].0, name)
          invariant at <= |entries|
          invariant forall i: nat :: i < at ==> Less(entries[i].0, name)
        {
          at := at + 1;
        }
        if at < |entries| {
          assert entries[at].0 in taken;
          LessIsTotal(entries[at].0, name);
        }
        InsertedStaysSorted(entries, (name, idMap[name]), at);
        InsertedEnumerates(entries, taken, (name, idMap[name]), at);
        entries := entries[..at] + [(name, idMap[name])] + entries[at..];
        taken := taken[name := idMap[name]];
        rest := rest - {name};
      }
      assert taken == idMap;
    }

    method SerializeIdMapToJson() returns (out: string)
      ensures IsTextOf(out, idMap)
    {
      var entries := SortedEntries();
      out := PrintAll(entries);
    }
  }

  method PrintAll(entries: seq<Pair>) returns (out: string)
    ensures out == Print(entries)
  {
    hide PrintEntry;
    out := "{";
    for i := 0 to |entries|
      invariant out == "{" + PrintEntries(entries[..i])
    {
      PrintEntriesStep(entries, i);
      if i > 0 {
        out := out + ",";
      }
      out := AppendEntry(out, entries[i]);
    }
    assert entries[..|entries|] == entries;
    out := out + "}";
  }

  lemma PrintEntriesStep(entries: seq<Pair>, i: nat)
    requires i < |entries|
    ensures PrintEntries(entries[..i + 1])
            == PrintEntries(entries[..i]) + (if i > 0 then "," else "") + PrintEntry(entries[i])
  {
    assert entries[..i + 1][..i] == entries[..i];
  }

  method AppendEntry(out: string, e: Pair) returns (longer: string)
    ensures longer == out + PrintEntry(e)
  {
    longer := out + "\"";
    longer := AppendEscaped(longer, e.0);
    longer := longer + "\":";
    longer := longer + PrintInt(e.1);
  }

  method AppendEscaped(out: string, name: string) returns (longer: string)
    ensures longer == out + Escape(name)
  {
    hide Escape;
    longer := out;
    EscapeStep(name, -1);
    for k := 0 to |name|
      invariant longer == out + Escape(name[..k])
    {
      EscapeStep(name, k);
      match name[k]
      case '"' => longer := longer + "\\\"";
      case '\\' => longer := longer + "\\\\";
      case c => longer := longer + [c];
    }
    assert name[..|name|] == name;
  }

  lemma EscapeStep(name: string, k: int)
    requires -1 <= k < |name|
    ensures Escape(name[..k + 1]) == if k < 0 then [] else Escape(name[..k]) + EscapeChar(name[k])
  {
    if k >= 0 {
      assert name[..k + 1][..k] == name[..k];
    }
  }

  lemma {:induction false} InsertedStaysSorted(entries: seq<Pair>, e: Pair, at: nat)
    requires Sorted(entries) && at <= |entries|
    requires forall i: nat :: i < at ==> Less(entries[i].0, e.0)
    requires at < |entries| ==> Less(e.0, entries[at].0)
    ensures Sorted(entries[..at] + [e] + entries[at..])
  {
    forall j: nat | at <= j < |entries|
      ensures Less(e.0, entries[j].0)
    {
      if at < j {
        LessIsTransitive(e.0, entries[at].0, entries[j].0);
      }
    }
    var r := entries[..at] + [e] + entries[at..];
    forall i: nat, j: nat | i < j < |r|
      ensures Less(r[i].0, r[j].0)
    {
      assert r[i] == if i < at then entries[i] else if i == at then e else entries[i - 1];
      assert r[j] == if j < at then entries[j] else if j == at then e else entries[j - 1];
    }
  }

  lemma {:induction false} InsertedEnumerates(entries: seq<Pair>, m: map<string, int>, e: Pair, at: nat)
    requires Enumerates(entries, m) && e.0 !in m && at <= |entries|
    ensures Enumerates(entries[..at] + [e] + entries[at..], m[e.0 := e.1])
  {
    var r := entries[..at] + [e] + entries[at..];
    assert r[at] == e;
    assert forall i: nat :: i < at ==> r[i] == entries[i];
    assert forall i: nat :: at < i < |r| ==> r[i] == entries[i - 1];
    InsertedDistinct(entries, m, e, at, r);
    InsertedNamesFound(entries, m, e, at, r, m[e.0 := e.1]);
  }

  lemma {:induction false} InsertedDistinct(entries: seq<Pair>, m: map<string, int>, e: Pair, at: nat, r: seq<Pair>)
    requires Enumerates(entries, m) && e.0 !in m && at < |r| == |entries| + 1 && r[at] == e
    requires forall i: nat :: i < at ==> r[i] == entries[i]
    requires forall i: nat :: at < i < |r| ==> r[i] == entries[i - 1]
    ensures forall i: nat, j: nat :: i < j < |r| ==> r[i].0 != r[j].0
  {
  }

  lemma {:induction false} InsertedNamesFound(entries: seq<Pair>, m: map<string, int>, e: Pair, at: nat, r: seq<Pair>,
                                              larger: map<string, int>)
    requires Enumerates(entries, m) && at < |r| == |entries| + 1 && r[at] == e
    requires forall i: nat :: i < at ==> r[i] == entries[i]
    requires forall i: nat :: at < i < |r| ==> r[i] == entries[i - 1]
    requires larger == m[e.0 := e.1]
    ensures forall name: string :: name in larger ==> exists i: nat :: i < |r| && r[i].0 == name
  {
    forall name: string | name in larger
      ensures exists i: nat :: i < |r| && r[i].0 == name
    {
      if name != e.0 {
        var i: nat :| i < |entries| && entries[i].0 == name;
        assert r[if i < at then i else i + 1].0 == name;
      }
    }
  }
}
