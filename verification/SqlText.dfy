/** Text plumbing of SQL import and export: joining and splitting, and quoted strings. */
module SqlText {
  import opened ByteStrings
  import opened Numerals

  const NEWLINE: Byte := 10
  const RETURN: Byte := 13
  const QUOTE: Byte := 39

  // ----- join and split -----

  function Join(parts: seq<Bytes>, separator: Byte): Bytes {
    if parts == [] then []
    else if |parts| == 1 then parts[0]
    else parts[0] + [separator] + Join(parts[1..], separator)
  }

  /** The pieces between separators; there is always at least one. */
  function Split(text: Bytes, separator: Byte): (parts: seq<Bytes>)
    ensures parts != [] && forall p :: p in parts ==> separator !in p
    ensures separator in text ==> |parts| >= 2
  {
    if text == [] then [[]]
    else
      var rest := Split(text[1..], separator);
      if text[0] == separator then [[]] + rest
      else [[text[0]] + rest[0]] + rest[1..]
  }

  lemma {:induction false} SplitPiece(piece: Bytes, text: Bytes, separator: Byte)
    requires separator !in piece
    ensures Split(piece, separator) == [piece]
    ensures Split(piece + [separator] + text, separator) == [piece] + Split(text, separator)
  {
    if piece == [] {
      assert [] + [separator] + text == [separator] + text;
    } else {
      var tail := piece[1..];
      SplitPiece(tail, text, separator);
      var whole := piece + [separator] + text;
      assert whole[1..] == tail + [separator] + text && whole[0] == piece[0];
      assert [piece[0]] + tail == piece;
      assert ([tail] + Split(text, separator))[1..] == Split(text, separator);
    }
  }

  /** Splitting what was joined gives the parts back exactly when none of them contains the
      separator. */
  lemma {:induction false} SplitJoin(parts: seq<Bytes>, separator: Byte)
    requires parts != []
    ensures Split(Join(parts, separator), separator) == parts <==> forall p :: p in parts ==> separator !in p
  {
    if forall p :: p in parts ==> separator !in p {
      SplitPiece(parts[0], Join(parts[1..], separator), separator);
      if |parts| > 1 {
        SplitJoin(parts[1..], separator);
        assert parts == [parts[0]] + parts[1..];
      } else {
        assert parts == [parts[0]];
      }
    }
  }

  /** Splitting what was joined splits each of the parts. */
  function Pieces(parts: seq<Bytes>, separator: Byte): seq<Bytes> {
    if parts == [] then [] else Split(parts[0], separator) + Pieces(parts[1..], separator)
  }

  lemma {:induction false} SplitFirst(text: Bytes, rest: Bytes, separator: Byte)
    ensures Split(text + [separator] + rest, separator) == Split(text, separator) + Split(rest, separator)
  {
    var whole := text + [separator] + rest;
    if text == [] {
      assert whole == [separator] + rest && whole[1..] == rest;
    } else {
      assert whole[1..] == text[1..] + [separator] + rest;
      SplitFirst(text[1..], rest, separator);
    }
  }

  lemma {:induction false} SplitPieces(parts: seq<Bytes>, separator: Byte)
    requires parts != []
    ensures Split(Join(parts, separator), separator) == Pieces(parts, separator)
  {
    if |parts| == 1 {
      assert Pieces(parts[1..], separator) == [];
    } else {
      SplitFirst(parts[0], Join(parts[1..], separator), separator);
      SplitPieces(parts[1..], separator);
    }
  }

  lemma {:induction false} JoinLength(parts: seq<Bytes>, separator: Byte, i: nat)
    requires i < |parts|
    ensures |Join(parts, separator)| >= |parts[i]| + |parts| - 1
  {
    if |parts| > 1 {
      if i > 0 {
        JoinLength(parts[1..], separator, i - 1);
      } else {
        JoinLength(parts[1..], separator, 0);
      }
    }
  }

  // ----- string literals -----

  /** `replace('\'', "''")`. */
  function DoubleQuotes(text: Bytes): Bytes {
    if text == [] then []
    else (if text[0] == QUOTE then [QUOTE, QUOTE] else [text[0]]) + DoubleQuotes(text[1..])
  }

  function Quoted(text: Bytes): Bytes {
    [QUOTE] + DoubleQuotes(text) + [QUOTE]
  }

  /** The rest of a string literal after its opening quote: a doubled quote stands for one, a
      single quote ends it. Gives the text and what follows. */
  function LexString(input: Bytes): Option<(Bytes, Bytes)>
    decreases |input|
  {
    if input == [] then None
    else if input[0] == QUOTE && (|input| == 1 || input[1] != QUOTE) then Some(([], input[1..]))
    else
      var width := if input[0] == QUOTE then 2 else 1;
      match LexString(input[width..])
      case None => None
      case Some((text, rest)) => Some(([input[0]] + text, rest))
  }

  /** Lexing a quoted text gives the text back and stops exactly at its closing quote. */
  lemma {:induction false} QuotedLexes(text: Bytes, after: Bytes)
    requires after == [] || after[0] != '\'' as int
    ensures Quoted(text)[0] == '\'' as int
    ensures LexString((Quoted(text) + after)[1..]) == Some((text, after))
    decreases |text|
  {
    LexQuoted(text, after);
    assert (Quoted(text) + after)[1..] == DoubleQuotes(text) + [QUOTE] + after;
  }

  lemma {:induction false} LexQuoted(text: Bytes, after: Bytes)
    requires after == [] || after[0] != QUOTE
    ensures LexString(DoubleQuotes(text) + [QUOTE] + after) == Some((text, after))
  {
    hide LexString;
    if text == [] {
      LexEnd(after);
    } else {
      var doubled := DoubleQuotes(text[1..]);
      LexQuoted(text[1..], after);
      assert text == [text[0]] + text[1..];
      if text[0] == QUOTE {
        Regroup([QUOTE, QUOTE], doubled, [QUOTE], after);
        LexDoubled(doubled + [QUOTE] + after);
      } else {
        Regroup([text[0]], doubled, [QUOTE], after);
        LexPlain(text[0], doubled + [QUOTE] + after);
      }
    }
  }

  lemma Regroup(a: Bytes, b: Bytes, c: Bytes, d: Bytes)
    ensures a + b + c + d == a + (b + c + d)
  {
  }

  lemma LexEnd(after: Bytes)
    requires after == [] || after[0] != QUOTE
    ensures LexString(DoubleQuotes([]) + [QUOTE] + after) == Some(([], after))
  {
    assert DoubleQuotes([]) + [QUOTE] + after == [QUOTE] + after;
    assert ([QUOTE] + after)[1..] == after;
  }

  lemma LexDoubled(tail: Bytes)
    requires LexString(tail).Some?
    ensures LexString([QUOTE, QUOTE] + tail) == Some(([QUOTE] + LexString(tail).value.0, LexString(tail).value.1))
  {
    assert ([QUOTE, QUOTE] + tail)[2..] == tail;
  }

  lemma LexPlain(b: Byte, tail: Bytes)
    requires b != QUOTE && LexString(tail).Some?
    ensures LexString([b] + tail) == Some(([b] + LexString(tail).value.0, LexString(tail).value.1))
  {
    assert ([b] + tail)[1..] == tail;
  }

  // ----- values -----

  function Upper(b: Byte): Byte {
    if 97 <= b <= 122 then b - 32 else b
  }

  function UpperCase(text: Bytes): Bytes {
    seq(|text|, i requires 0 <= i < |text| => Upper(text[i]))
  }

  predicate IsNumericType(dataType: Bytes) {
    var t := UpperCase(dataType);
    StartsWith(t, Ascii("INT")) || StartsWith(t, Ascii("DECIMAL")) || StartsWith(t, Ascii("NUMERIC"))
    || StartsWith(t, Ascii("REAL")) || StartsWith(t, Ascii("FLOAT")) || StartsWith(t, Ascii("DOUBLE"))
  }

  /** Letters of one text may be small where the other's are capital, or the other way round. */
  predicate SameButCase(a: Bytes, b: Bytes) {
    |a| == |b| && forall i :: 0 <= i < |a| ==> SameLetter(a[i], b[i])
  }

  predicate SameLetter(a: Byte, b: Byte) {
    a == b || (65 <= a <= 90 && b == a + 32) || (65 <= b <= 90 && a == b + 32)
  }

  predicate IsCapitals(text: Bytes) {
    forall b :: b in text ==> 65 <= b <= 90
  }

  lemma CaseIsIgnored(name: Bytes, rest: Bytes, capitals: Bytes)
    requires SameButCase(name, capitals) && IsCapitals(capitals)
    ensures StartsWith(UpperCase(name + rest), capitals)
  {
    var t := UpperCase(name + rest);
    forall i | 0 <= i < |capitals| ensures t[i] == capitals[i] {
      assert (name + rest)[i] == name[i] && capitals[i] in capitals;
    }
    assert t[..|capitals|] == capitals;
  }

  predicate IsNumericName(name: Bytes) {
    || name == Ascii("INT") || name == Ascii("DECIMAL") || name == Ascii("NUMERIC")
    || name == Ascii("REAL") || name == Ascii("FLOAT") || name == Ascii("DOUBLE")
  }

  predicate BeginsLike(text: Bytes, capitals: Bytes) {
    |capitals| <= |text| && SameButCase(text[..|capitals|], capitals)
  }

  /** The numeric types are those that begin with one of six names, in small or capital letters. */
  lemma NumericTypes(dataType: Bytes)
    ensures IsNumericType(dataType) <==> exists name :: IsNumericName(name) && BeginsLike(dataType, name)
  {
    hide UpperCase, BeginsLike;
    if IsNumericType(dataType) {
      var name := NameOfType(dataType);
      NameIsCapitals(name);
      CapitalsFound(dataType, name);
    }
    if name :| IsNumericName(name) && BeginsLike(dataType, name) {
      NameIsCapitals(name);
      StartsLike(dataType, name);
    }
  }

  lemma NameOfType(dataType: Bytes) returns (name: Bytes)
    requires IsNumericType(dataType)
    ensures IsNumericName(name) && StartsWith(UpperCase(dataType), name)
  {
    hide StartsWith, UpperCase;
    var t := UpperCase(dataType);
    name := if StartsWith(t, Ascii("INT")) then Ascii("INT")
            else if StartsWith(t, Ascii("DECIMAL")) then Ascii("DECIMAL")
            else if StartsWith(t, Ascii("NUMERIC")) then Ascii("NUMERIC")
            else if StartsWith(t, Ascii("REAL")) then Ascii("REAL")
            else if StartsWith(t, Ascii("FLOAT")) then Ascii("FLOAT") else Ascii("DOUBLE");
  }

  lemma NameIsCapitals(name: Bytes)
    requires IsNumericName(name)
    ensures IsCapitals(name)
  {
  }

  lemma StartsLike(text: Bytes, capitals: Bytes)
    requires BeginsLike(text, capitals) && IsCapitals(capitals)
    ensures StartsWith(UpperCase(text), capitals)
  {
    var n := |capitals|;
    CaseIsIgnored(text[..n], text[n..], capitals);
    assert text[..n] + text[n..] == text;
  }

  lemma CapitalsFound(text: Bytes, capitals: Bytes)
    requires StartsWith(UpperCase(text), capitals) && IsCapitals(capitals)
    ensures BeginsLike(text, capitals)
  {
    var t := UpperCase(text);
    forall i | 0 <= i < |capitals| ensures SameLetter(text[i], capitals[i]) {
      assert t[..|capitals|][i] == t[i] == Upper(text[i]) && capitals[i] in capitals;
    }
  }

  function FormatSqlValue(value: Bytes, dataType: Bytes): Bytes {
    if IsNumericType(dataType) then (if value == [] then Ascii("NULL") else value)
    else if value == [] then Ascii("NULL")
    else Quoted(value)
  }

  /** What a SQL reader takes a formatted value for; None is the null value. */
  function ReadSqlValue(text: Bytes): Option<Bytes> {
    if text == Ascii("NULL") then None
    else if text != [] && text[0] == QUOTE then
      match LexString(text[1..])
      case Some((value, _)) => Some(value)
      case None => Some(text)
    else Some(text)
  }

  /** A number as SQL writes it: it begins with a sign, a point or a digit. */
  predicate IsNumeral(text: Bytes) {
    && text != [] && (IsDigit(text[0]) || text[0] in Ascii("+-."))
    && forall i :: 0 < i < |text| ==> IsDigit(text[i]) || text[i] in Ascii("+-.eE")
  }

  /** A number is written as it is and read back as itself; an empty value becomes null. */
  lemma NumberReadsBack(value: Bytes, dataType: Bytes)
    requires IsNumericType(dataType) && (value == [] || IsNumeral(value))
    ensures ReadSqlValue(FormatSqlValue(value, dataType)) == if value == [] then None else Some(value)
    ensures IsNumeral(value) ==> FormatSqlValue(value, dataType) == value
  {
    hide IsNumericType;
    if value != [] {
      assert Ascii("NULL")[0] == 78;
      assert value[0] != 78 && value[0] != QUOTE;
    }
  }

  /** A text value is read back as it was, except that an empty one becomes null. */
  lemma TextValueReadsBack(value: Bytes, dataType: Bytes)
    requires !IsNumericType(dataType)
    ensures ReadSqlValue(FormatSqlValue(value, dataType)) == if value == [] then None else Some(value)
  {
    hide IsNumericType;
    if value != [] {
      QuotedLexes(value, []);
      assert Quoted(value) + [] == Quoted(value);
      assert Ascii("NULL")[0] != QUOTE;
    }
  }
}
