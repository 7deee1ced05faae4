/** The per-column literal encoder of the dump side (dump.go, the type switch
    inside writeTableData): a scanned column value and its column's declared
    type become the SQL text of one literal. */
module Literal {
  import opened Base
  import opened Text

  newtype byte = x: int | 0 <= x < 256

  /** A time.Time as the driver delivers it for DATE, DATETIME and TIMESTAMP
      columns: calendar fields only, in UTC, without a fraction of a second. */
  datatype DateTime = DateTime(year: int, month: nat, day: nat, hour: nat, minute: nat, second: nat)

  /** A scanned column value: nil, []byte, an integer, a time.Time or a bool. */
  datatype Value = Null | Bytes(bytes: seq<byte>) | Int(i: int) | Time(t: DateTime) | Bool(b: bool)

  /** What the row loop reads of a column: its name and its DatabaseTypeName. */
  datatype Column = Column(name: string, dbType: string)

  /** The outcome of encoding one value: a literal, the unsupported-type error,
      or a failed type assertion (which the source answers with a nil error). */
  datatype Encoded = Lit(text: string) | Unsupported(key: string) | NotConverted(key: string)

  /** A character that a single byte of a Go string stands for. */
  predicate IsByteChar(c: char)
  {
    c as int < 256
  }

  /** string(bs): every byte becomes the character of the same code. */
  function ByteText(bs: seq<byte>): (r: string)
    ensures |r| == |bs| && forall k :: 0 <= k < |bs| ==> r[k] as int == bs[k] as int
  {
    if bs == [] then [] else [(bs[0] as int) as char] + ByteText(bs[1..])
  }

  // ---- the dispatch key ----

  /** The switch key: the type name with every "UNSIGNED" and then every
      space removed. */
  function TypeKey(dbType: string): (key: string)
  {
    RemoveAll(RemoveAll(dbType, "UNSIGNED"), " ")
  }

  lemma TypeKeyHasNoSpace(dbType: string)
    ensures ' ' !in TypeKey(dbType)
  {
    RemoveAllChar(RemoveAll(dbType, "UNSIGNED"), ' ');
  }

  /** "INT UNSIGNED" dispatches as "INT". */
  lemma TypeKeyIntUnsigned()
    ensures TypeKey("INT UNSIGNED") == "INT"
  {
    var u := "UNSIGNED";
    RemoveAllDrops("", u);
    assert "INT UNSIGNED" == "I" + ("N" + ("T" + (" " + (u + ""))));
    RemoveAllKeeps(' ', u + "", u);
    RemoveAllKeeps('T', " " + (u + ""), u);
    RemoveAllKeeps('N', "T" + (" " + (u + "")), u);
    RemoveAllKeeps('I', "N" + ("T" + (" " + (u + ""))), u);
    assert RemoveAll("INT UNSIGNED", u) == "INT ";
    RemoveAllDrops("", " ");
    assert "INT " == "I" + ("N" + ("T" + (" " + "")));
    RemoveAllKeeps('T', " " + "", " ");
    RemoveAllKeeps('N', "T" + (" " + ""), " ");
    RemoveAllKeeps('I', "N" + ("T" + (" " + "")), " ");
  }

  /** The case of the switch a key falls into, in the switch's order. */
  datatype Kind =
    | IntegerKind | FloatKind | DecimalKind | DateKind | DateTimeKind | TimeKind | YearKind
    | CharKind | BinaryKind | EnumKind | BoolKind | JsonKind | UnknownKind

  function KindOf(key: string): (kind: Kind)
  {
    if key in {"TINYINT", "SMALLINT", "MEDIUMINT", "INT", "INTEGER", "BIGINT"} then IntegerKind
    else if key in {"FLOAT", "DOUBLE"} then FloatKind
    else if key in {"DECIMAL", "DEC"} then DecimalKind
    else if key == "DATE" then DateKind
    else if key in {"DATETIME", "TIMESTAMP"} then DateTimeKind
    else if key == "TIME" then TimeKind
    else if key == "YEAR" then YearKind
    else if key in {"CHAR", "VARCHAR", "TINYTEXT", "TEXT", "MEDIUMTEXT", "LONGTEXT"} then CharKind
    else if key in {"BIT", "BINARY", "VARBINARY", "TINYBLOB", "BLOB", "MEDIUMBLOB", "LONGBLOB"} then BinaryKind
    else if key in {"ENUM", "SET"} then EnumKind
    else if key in {"BOOL", "BOOLEAN"} then BoolKind
    else if key == "JSON" then JsonKind
    else UnknownKind
  }

  /** The values the switch can render without a runtime panic, float
      formatting or fmt's %d dump of time.Time's internal fields. */
  predicate Renderable(kind: Kind, v: Value)
  {
    && (kind == BoolKind ==> v.Bool?)
    && (kind == FloatKind ==> v.Bytes?)
    && (kind == IntegerKind ==> !v.Time?)
  }

  // ---- fmt verbs on the values ----

  function BoolText(b: bool): (r: string)
  {
    if b then "true" else "false"
  }

  function DateText(t: DateTime): (r: string)
  {
    (if t.year < 0 then "-" + Pad(-t.year, 4) else Pad(t.year, 4))
    + "-" + Pad(t.month, 2) + "-" + Pad(t.day, 2)
  }

  function ClockText(t: DateTime): (r: string)
  {
    Pad(t.hour, 2) + ":" + Pad(t.minute, 2) + ":" + Pad(t.second, 2)
  }

  /** t.Format("2006-01-02 15:04:05"). */
  function DateTimeText(t: DateTime): (r: string)
  {
    DateText(t) + " " + ClockText(t)
  }

  /** fmt's %s: the bytes as text, time.Time's String() in UTC, and fmt's
      bad-verb text for an integer or a bool. */
  function FormatS(v: Value): (r: string)
    requires !v.Null?
  {
    match v
    case Bytes(bs) => ByteText(bs)
    case Int(i) => "%!s(int64=" + IntText(i) + ")"
    case Time(t) => DateTimeText(t) + " +0000 UTC"
    case Bool(b) => "%!s(bool=" + BoolText(b) + ")"
  }

  /** fmt's %d of a value that is not a byte slice. */
  function FormatD(v: Value): (r: string)
    requires v.Int? || v.Bool?
  {
    if v.Int? then IntText(v.i) else "%!d(bool=" + BoolText(v.b) + ")"
  }

  function HexValue(c: char): (d: nat)
    requires IsHexDigit(c)
    ensures d < 16 && HexDigit(d) == c
  {
    if '0' <= c <= '9' then c as int - '0' as int else c as int - 'A' as int + 10
  }

  /** fmt's %X of a byte slice: two upper-case hexadecimal digits per byte. */
  function Hex(bs: seq<byte>): (r: string)
    ensures |r| == 2 * |bs|
    ensures forall k :: 0 <= k < |r| ==> IsHexDigit(r[k])
  {
    if bs == [] then []
    else [HexDigit(bs[0] as nat / 16), HexDigit(bs[0] as nat % 16)] + Hex(bs[1..])
  }

  /** The bytes that a string of hexadecimal digit pairs stands for. */
  function Unhex(s: string): (r: seq<byte>)
    requires |s| % 2 == 0 && forall k :: 0 <= k < |s| ==> IsHexDigit(s[k])
  {
    if s == [] then [] else [(16 * HexValue(s[0]) + HexValue(s[1])) as byte] + Unhex(s[2..])
  }

  lemma HexDigitValue(d: nat)
    requires d < 16
    ensures HexValue(HexDigit(d)) == d
  {
  }

  /** The two digits of a byte read back as the byte. */
  lemma HexPair(b: byte)
    ensures (16 * HexValue(HexDigit(b as nat / 16)) + HexValue(HexDigit(b as nat % 16))) as byte == b
  {
    HexDigitValue(b as nat / 16);
    HexDigitValue(b as nat % 16);
  }

  lemma {:induction false} HexRoundTrip(bs: seq<byte>)
    ensures Unhex(Hex(bs)) == bs
  {
    if bs != [] {
      var h := Hex(bs);
      var t := Hex(bs[1..]);
      assert h == [HexDigit(bs[0] as nat / 16), HexDigit(bs[0] as nat % 16)] + t;
      assert h[2..] == t;
      HexPair(bs[0]);
      HexRoundTrip(bs[1..]);
      assert Unhex(h) == [bs[0]] + Unhex(t);
      assert bs == [bs[0]] + bs[1..];
    }
  }

  /** The bytes of a text whose every character is a single byte: the
      inverse of string(bs). */
  function TextBytes(s: string): (bs: seq<byte>)
    requires ByteChars(s)
    ensures ByteText(bs) == s
  {
    if s == [] then []
    else
      assert IsByteChar(s[0]);
      var bs := [(s[0] as int) as byte] + TextBytes(s[1..]);
      assert bs[1..] == TextBytes(s[1..]);
      bs
  }

  /** Text that a Go string can hold: one byte per character. */
  predicate ByteChars(s: string)
  {
    forall k :: 0 <= k < |s| ==> IsByteChar(s[k])
  }

  lemma ByteCharsConcat(a: string, b: string)
    requires ByteChars(a) && ByteChars(b)
    ensures ByteChars(a + b)
  {
    forall k | 0 <= k < |a + b|
      ensures IsByteChar((a + b)[k])
    {
      if k < |a| {
        assert (a + b)[k] == a[k];
      } else {
        assert (a + b)[k] == b[k - |a|];
      }
    }
  }

  lemma DateTextIsBytes(t: DateTime)
    ensures ByteChars(DateText(t))
  {
    var y := if t.year < 0 then "-" + Pad(-t.year, 4) else Pad(t.year, 4);
    if t.year < 0 {
      ByteCharsConcat("-", Pad(-t.year, 4));
    }
    ByteCharsConcat(y, "-");
    ByteCharsConcat(y + "-", Pad(t.month, 2));
    ByteCharsConcat(y + "-" + Pad(t.month, 2), "-");
    ByteCharsConcat(y + "-" + Pad(t.month, 2) + "-", Pad(t.day, 2));
  }

  lemma ClockTextIsBytes(t: DateTime)
    ensures ByteChars(ClockText(t))
  {
    ByteCharsConcat(Pad(t.hour, 2), ":");
    ByteCharsConcat(Pad(t.hour, 2) + ":", Pad(t.minute, 2));
    ByteCharsConcat(Pad(t.hour, 2) + ":" + Pad(t.minute, 2), ":");
    ByteCharsConcat(Pad(t.hour, 2) + ":" + Pad(t.minute, 2) + ":", Pad(t.second, 2));
  }

  /** A time's String() text is made of single-byte characters. */
  lemma TimeTextIsBytes(t: DateTime)
    ensures ByteChars(FormatS(Time(t)))
  {
    DateTextIsBytes(t);
    ClockTextIsBytes(t);
    ByteCharsConcat(DateText(t), " ");
    ByteCharsConcat(DateText(t) + " ", ClockText(t));
    ByteCharsConcat(DateTimeText(t), " +0000 UTC");
  }

  /** The bytes of a time's String() text. */
  function TimeBytes(t: DateTime): (bs: seq<byte>)
    ensures ByteText(bs) == FormatS(Time(t))
  {
    TimeTextIsBytes(t);
    TextBytes(FormatS(Time(t)))
  }

  /** fmt's %X of a value. A time.Time is a Stringer, so fmt prints the
      hexadecimal of the bytes of its String() text. */
  function FormatX(v: Value): (r: string)
    requires !v.Null?
  {
    match v
    case Bytes(bs) => Hex(bs)
    case Int(i) => IntHex(i)
    case Time(t) => Hex(TimeBytes(t))
    case Bool(b) => "%!X(bool=" + BoolText(b) + ")"
  }

  // ---- quoting ----

  function Quoted(s: string): (r: string)
  {
    "'" + s + "'"
  }

  /** strings.Replace(s, "'", "''", -1). */
  function DoubleQuotes(s: string): (r: string)
    ensures |r| >= |s|
  {
    if s == [] then []
    else
      assert s == [s[0]] + s[1..];
      (if s[0] == '\'' then "''" else [s[0]]) + DoubleQuotes(s[1..])
  }

  /** How standard SQL reads the text after the opening quote of a string
      literal, as MySQL does under NO_BACKSLASH_ESCAPES: '' stands for one
      quote, a lone quote must end the text, and a backslash is an ordinary
      character. */
  function ReadQuotedBody(t: string): (r: Option<string>)
  {
    if t == [] then None
    else if t[0] == '\'' then
      if |t| == 1 then Some([])
      else if t[1] == '\'' then
        match ReadQuotedBody(t[2..])
        case None => None
        case Some(r) => Some("'" + r)
      else None
    else
      match ReadQuotedBody(t[1..])
      case None => None
      case Some(r) => Some([t[0]] + r)
  }

  /** The string an SQL string literal stands for, in the reading of
      ReadQuotedBody. */
  function ReadStringLiteral(lit: string): (r: Option<string>)
  {
    if lit != [] && lit[0] == '\'' then ReadQuotedBody(lit[1..]) else None
  }

  /** What MySQL's default mode makes of a backslash followed by c inside a
      string literal: the special escapes, \% and \_ kept as two characters,
      and any other character standing for itself. */
  function BackslashEscape(c: char): (r: string)
  {
    if c == '0' then [0 as char]
    else if c == 'b' then [8 as char]
    else if c == 'n' then "\n"
    else if c == 'r' then "\r"
    else if c == 't' then "\t"
    else if c == 'Z' then [26 as char]
    else if c == '%' || c == '_' then ['\\', c]
    else [c]
  }

  /** How MySQL in its default mode reads the text after the opening quote:
      as ReadQuotedBody, except that a backslash escapes the next character. */
  function ReadMySqlBody(t: string): (r: Option<string>)
  {
    if t == [] then None
    else if t[0] == '\\' then
      if |t| == 1 then None
      else
        match ReadMySqlBody(t[2..])
        case None => None
        case Some(r) => Some(BackslashEscape(t[1]) + r)
    else if t[0] == '\'' then
      if |t| == 1 then Some([])
      else if t[1] == '\'' then
        match ReadMySqlBody(t[2..])
        case None => None
        case Some(r) => Some("'" + r)
      else None
    else
      match ReadMySqlBody(t[1..])
      case None => None
      case Some(r) => Some([t[0]] + r)
  }

  /** The string MySQL in its default mode reads from a string literal. */
  function ReadMySqlLiteral(lit: string): (r: Option<string>)
  {
    if lit != [] && lit[0] == '\'' then ReadMySqlBody(lit[1..]) else None
  }

  /** Without a backslash, MySQL's default reading and the standard one agree. */
  lemma {:induction false} MySqlReadingAgrees(t: string)
    requires '\\' !in t
    ensures ReadMySqlBody(t) == ReadQuotedBody(t)
    decreases |t|
  {
    if t != [] {
      assert t[0] in t;
      if t[0] == '\'' && |t| > 1 && t[1] == '\'' {
        assert forall c :: c in t[2..] ==> c in t;
        MySqlReadingAgrees(t[2..]);
      } else if t[0] != '\'' {
        assert forall c :: c in t[1..] ==> c in t;
        MySqlReadingAgrees(t[1..]);
      }
    }
  }

  function QuoteCount(s: string): (r: nat)
  {
    multiset(s)['\'']
  }

  /** strings.Replace(s, "'", "''", -1) adds exactly one character per quote. */
  lemma {:induction false} DoubleQuotesLength(s: string)
    ensures |DoubleQuotes(s)| == |s| + QuoteCount(s)
  {
    if s != [] {
      DoubleQuotesLength(s[1..]);
      assert s == [s[0]] + s[1..];
      assert multiset(s) == multiset([s[0]]) + multiset(s[1..]);
    }
  }

  /** Doubled quotes read back as the original string: nothing but the quotes
      was changed. */
  lemma {:induction false} DoubleQuotesRoundTrip(s: string)
    ensures ReadQuotedBody(DoubleQuotes(s) + "'") == Some(s)
  {
    if s != [] {
      DoubleQuotesRoundTrip(s[1..]);
      var rest := DoubleQuotes(s[1..]) + "'";
      if s[0] == '\'' {
        assert DoubleQuotes(s) + "'" == "''" + rest;
        assert ("''" + rest)[2..] == rest;
      } else {
        assert DoubleQuotes(s) + "'" == [s[0]] + rest;
        assert ([s[0]] + rest)[1..] == rest;
      }
      assert s == [s[0]] + s[1..];
    }
  }

  /** Each quote of the string read costs two characters of the text and the
      closing quote one. */
  lemma {:induction false} ReadQuotedBodyLength(t: string, r: string)
    requires ReadQuotedBody(t) == Some(r)
    ensures |t| == |r| + QuoteCount(r) + 1
  {
    if t[0] == '\'' {
      if |t| > 1 {
        var r' := ReadQuotedBody(t[2..]).value;
        ReadQuotedBodyLength(t[2..], r');
        assert multiset("'" + r') == multiset{'\''} + multiset(r');
      }
    } else {
      var r' := ReadQuotedBody(t[1..]).value;
      ReadQuotedBodyLength(t[1..], r');
      assert multiset([t[0]] + r') == multiset{t[0]} + multiset(r');
    }
  }

  lemma {:induction false} PlainQuotedReads(s: string)
    requires '\'' !in s
    ensures ReadQuotedBody(s + "'") == Some(s)
  {
    if s != [] {
      assert (s + "'")[1..] == s[1..] + "'";
      PlainQuotedReads(s[1..]);
      assert s == [s[0]] + s[1..];
    }
  }

  /** Quoting without escaping, as the ENUM, SET and JSON cases do, gives
      back the text exactly when the text holds no quote. */
  lemma UnescapedQuotingReadsBack(s: string)
    ensures ReadStringLiteral(Quoted(s)) == Some(s) <==> '\'' !in s
  {
    assert Quoted(s)[1..] == s + "'";
    if '\'' !in s {
      PlainQuotedReads(s);
    }
    if ReadStringLiteral(Quoted(s)) == Some(s) {
      ReadQuotedBodyLength(s + "'", s);
      assert QuoteCount(s) == 0;
    }
  }

  // ---- the switch ----

  /** The literal for one column value (dump.go, the body of the row loop). */
  function Encode(col: Column, v: Value, withoutPrimaryID: bool): (e: Encoded)
    requires v.Null? || Renderable(KindOf(TypeKey(col.dbType)), v)
  {
    if v.Null? then Lit("NULL")
    else
      var key := TypeKey(col.dbType);
      match KindOf(key)
      case IntegerKind =>
        if v.Bytes? then
          if withoutPrimaryID && col.name == "id" then Lit("0") else Lit(ByteText(v.bytes))
        else Lit(FormatD(v))
      case FloatKind => Lit(ByteText(v.bytes))
      case DecimalKind => Lit(FormatS(v))
      case DateKind => if v.Time? then Lit(Quoted(DateText(v.t))) else NotConverted(key)
      case DateTimeKind => if v.Time? then Lit(Quoted(DateTimeText(v.t))) else NotConverted(key)
      case TimeKind => if v.Bytes? then Lit(Quoted(ByteText(v.bytes))) else NotConverted(key)
      case YearKind => if v.Bytes? then Lit(ByteText(v.bytes)) else NotConverted(key)
      case CharKind => Lit(Quoted(DoubleQuotes(FormatS(v))))
      case BinaryKind => Lit("0x" + FormatX(v))
      case EnumKind => Lit(Quoted(FormatS(v)))
      case BoolKind => Lit(BoolText(v.b))
      case JsonKind => Lit(Quoted(FormatS(v)))
      case UnknownKind => Unsupported(key)
  }

  /** A nil value is NULL whatever the column's type; otherwise the switch
      fails exactly on an unknown type key, which the error then names, and
      gives up without a literal exactly on a DATE, DATETIME or TIMESTAMP
      value that is not a time, or a TIME or YEAR value that is not bytes. */
  lemma EncodeOutcome(col: Column, v: Value, withoutPrimaryID: bool)
    requires v.Null? || Renderable(KindOf(TypeKey(col.dbType)), v)
    ensures v.Null? ==> Encode(col, v, withoutPrimaryID) == Lit("NULL")
    ensures var e := Encode(col, v, withoutPrimaryID);
      e.Unsupported? <==> !v.Null? && KindOf(TypeKey(col.dbType)) == UnknownKind
    ensures Encode(col, v, withoutPrimaryID).Unsupported? ==>
      Encode(col, v, withoutPrimaryID).key == TypeKey(col.dbType)
    ensures var e := Encode(col, v, withoutPrimaryID);
      e.NotConverted? <==> !v.Null? && var kind := KindOf(TypeKey(col.dbType));
      ((kind == DateKind || kind == DateTimeKind) && !v.Time?) || ((kind == TimeKind || kind == YearKind) && !v.Bytes?)
  {
  }

  /** The "zero the id" option changes only byte-text values of integer
      columns named exactly "id", and then to the literal 0. */
  lemma ZeroIdOnly(col: Column, v: Value)
    requires v.Null? || Renderable(KindOf(TypeKey(col.dbType)), v)
    ensures Encode(col, v, true) != Encode(col, v, false) <==>
      KindOf(TypeKey(col.dbType)) == IntegerKind && col.name == "id" && v.Bytes? && ByteText(v.bytes) != "0"
    ensures KindOf(TypeKey(col.dbType)) == IntegerKind && col.name == "id" && v.Bytes? ==> Encode(col, v, true) == Lit("0")
  {
  }

  /** Integer columns: byte text verbatim, other integers in decimal, even
      when the column is "id". */
  lemma IntegerLiteral(col: Column, v: Value, withoutPrimaryID: bool)
    requires KindOf(TypeKey(col.dbType)) == IntegerKind && (v.Bytes? || v.Int?)
    requires !(withoutPrimaryID && col.name == "id") || v.Int?
    ensures Encode(col, v, withoutPrimaryID) == Lit(if v.Bytes? then ByteText(v.bytes) else IntText(v.i))
  {
  }

  /** A quoted literal with its quotes doubled reads back as the text. */
  lemma EscapedLiteralReadsBack(s: string)
    ensures ReadStringLiteral(Quoted(DoubleQuotes(s))) == Some(s)
  {
    var body := DoubleQuotes(s);
    assert Quoted(body)[1..] == body + "'";
    DoubleQuotesRoundTrip(s);
  }

  /** Character columns: the literal reads back, as an SQL string, as exactly
      the value's text. */
  lemma CharLiteralReadsBack(col: Column, v: Value, withoutPrimaryID: bool)
    requires KindOf(TypeKey(col.dbType)) == CharKind && !v.Null?
    ensures Encode(col, v, withoutPrimaryID).Lit?
    ensures ReadStringLiteral(Encode(col, v, withoutPrimaryID).text) == Some(FormatS(v))
  {
    assert Encode(col, v, withoutPrimaryID) == Lit(Quoted(DoubleQuotes(FormatS(v))));
    EscapedLiteralReadsBack(FormatS(v));
  }

  /** Backslashes are not escaped: the CHAR value a\ becomes the literal
      'a\', which the standard reading gives back but MySQL's default mode
      reads as an unterminated string. */
  lemma BackslashBreaksCharLiteral(col: Column, withoutPrimaryID: bool)
    requires KindOf(TypeKey(col.dbType)) == CharKind
    ensures Encode(col, Bytes([97, 92]), withoutPrimaryID) == Lit("'a\\'")
    ensures ReadStringLiteral("'a\\'") == Some("a\\")
    ensures ReadMySqlLiteral("'a\\'") == None
  {
    var text := ByteText([97, 92]);
    assert text == "a\\";
    assert DoubleQuotes(text) == "a\\";
    assert "'a\\'"[1..] == "a\\'";
    assert "a\\'"[1..] == "\\'";
    assert "a\\'"[2..] == "'";
    assert "\\'"[2..] == "";
  }

  /** ENUM, SET and JSON columns: the %s text quoted as is, which reads back
      exactly when the text holds no quote. */
  lemma QuotedKindsLiteral(col: Column, v: Value, withoutPrimaryID: bool)
    requires KindOf(TypeKey(col.dbType)) in {EnumKind, JsonKind} && !v.Null?
    ensures Encode(col, v, withoutPrimaryID) == Lit(Quoted(FormatS(v)))
    ensures ReadStringLiteral(Encode(col, v, withoutPrimaryID).text) == Some(FormatS(v)) <==> '\'' !in FormatS(v)
  {
    assert Encode(col, v, withoutPrimaryID) == Lit(Quoted(FormatS(v)));
    UnescapedQuotingReadsBack(FormatS(v));
  }

  /** BOOL, TIME and YEAR columns: true or false after the bool; the bytes
      quoted as is, reading back exactly when they hold no quote; the bytes
      bare. */
  lemma PlainKindsLiteral(col: Column, v: Value, withoutPrimaryID: bool)
    requires !v.Null? && Renderable(KindOf(TypeKey(col.dbType)), v)
    ensures KindOf(TypeKey(col.dbType)) == BoolKind ==>
      Encode(col, v, withoutPrimaryID) == Lit(if v.b then "true" else "false")
    ensures KindOf(TypeKey(col.dbType)) == TimeKind && v.Bytes? ==>
      Encode(col, v, withoutPrimaryID) == Lit(Quoted(ByteText(v.bytes)))
      && (ReadStringLiteral(Encode(col, v, withoutPrimaryID).text) == Some(ByteText(v.bytes)) <==> '\'' !in ByteText(v.bytes))
    ensures KindOf(TypeKey(col.dbType)) == YearKind && v.Bytes? ==>
      Encode(col, v, withoutPrimaryID) == Lit(ByteText(v.bytes))
  {
    if KindOf(TypeKey(col.dbType)) == TimeKind && v.Bytes? {
      UnescapedQuotingReadsBack(ByteText(v.bytes));
    }
  }

  /** Binary columns: "0x", then two digits per byte that decode back to the
      bytes. */
  lemma BinaryLiteral(col: Column, bs: seq<byte>, withoutPrimaryID: bool)
    requires KindOf(TypeKey(col.dbType)) == BinaryKind
    ensures Encode(col, Bytes(bs), withoutPrimaryID).Lit?
    ensures var text := Encode(col, Bytes(bs), withoutPrimaryID).text;
      |text| == 2 + 2 * |bs| && text[..2] == "0x" && Unhex(text[2..]) == bs
  {
    var text := "0x" + Hex(bs);
    assert text[2..] == Hex(bs);
    HexRoundTrip(bs);
  }

  /** Binary columns holding a time: the literal is the one the bytes of
      the time's String() text give, so BinaryLiteral applies to it. */
  lemma BinaryTimeLiteral(col: Column, t: DateTime, withoutPrimaryID: bool)
    requires KindOf(TypeKey(col.dbType)) == BinaryKind
    ensures Encode(col, Time(t), withoutPrimaryID) == Encode(col, Bytes(TimeBytes(t)), withoutPrimaryID)
    ensures ByteText(TimeBytes(t)) == FormatS(Time(t))
  {
  }

  lemma HexExample()
    ensures Hex([0xDE, 0xAD]) == "DEAD"
  {
    assert [0xDE, 0xAD][1..] == [0xAD as byte];
  }

  /** Pads that read back as their value and have their width. */
  lemma PadFixed(n: nat, w: nat)
    requires 0 < w && n < Pow10(w)
    ensures |Pad(n, w)| == w && DigitsValue(Pad(n, w)) == n
  {
    PadValue(n, w);
  }

  /** The date text is YYYY-MM-DD and reads back as the date. */
  lemma DateTextFields(t: DateTime)
    requires 0 <= t.year <= 9999 && 1 <= t.month <= 12 && 1 <= t.day <= 31
    ensures var d := DateText(t);
      |d| == 10 && d[4] == '-' && d[7] == '-'
      && (forall k :: 0 <= k < 4 ==> IsDigit(d[k])) && DigitsValue(d[..4]) == t.year
      && (forall k :: 5 <= k < 7 ==> IsDigit(d[k])) && DigitsValue(d[5..7]) == t.month
      && (forall k :: 8 <= k < 10 ==> IsDigit(d[k])) && DigitsValue(d[8..]) == t.day
  {
    PadFixed(t.year, 4);
    PadFixed(t.month, 2);
    PadFixed(t.day, 2);
    var d := DateText(t);
    assert d == Pad(t.year, 4) + "-" + Pad(t.month, 2) + "-" + Pad(t.day, 2);
    assert d[..4] == Pad(t.year, 4);
    assert d[5..7] == Pad(t.month, 2);
    assert d[8..] == Pad(t.day, 2);
  }

  /** The clock text is HH:MM:SS and reads back as the time of day. */
  lemma ClockTextFields(t: DateTime)
    requires t.hour < 24 && t.minute < 60 && t.second < 60
    ensures var c := ClockText(t);
      |c| == 8 && c[2] == ':' && c[5] == ':'
      && (forall k :: 0 <= k < 2 ==> IsDigit(c[k])) && DigitsValue(c[..2]) == t.hour
      && (forall k :: 3 <= k < 5 ==> IsDigit(c[k])) && DigitsValue(c[3..5]) == t.minute
      && (forall k :: 6 <= k < 8 ==> IsDigit(c[k])) && DigitsValue(c[6..]) == t.second
  {
    PadFixed(t.hour, 2);
    PadFixed(t.minute, 2);
    PadFixed(t.second, 2);
    var c := ClockText(t);
    assert c[..2] == Pad(t.hour, 2);
    assert c[3..5] == Pad(t.minute, 2);
    assert c[6..] == Pad(t.second, 2);
  }

  /** DATE columns: 'YYYY-MM-DD', twelve characters that read back as the
      date. */
  lemma DateLiteral(col: Column, t: DateTime, withoutPrimaryID: bool)
    requires KindOf(TypeKey(col.dbType)) == DateKind
    requires 0 <= t.year <= 9999 && 1 <= t.month <= 12 && 1 <= t.day <= 31
    ensures Encode(col, Time(t), withoutPrimaryID).Lit?
    ensures var text := Encode(col, Time(t), withoutPrimaryID).text;
      |text| == 12 && text[0] == '\'' && text[11] == '\'' && text[1..11] == DateText(t)
  {
    DateTextFields(t);
  }

  /** DATETIME and TIMESTAMP columns: 'YYYY-MM-DD HH:MM:SS', twenty-one
      characters: the date, a space and the clock, each reading back as its
      fields. */
  lemma DateTimeLiteral(col: Column, t: DateTime, withoutPrimaryID: bool)
    requires KindOf(TypeKey(col.dbType)) == DateTimeKind
    requires 0 <= t.year <= 9999 && 1 <= t.month <= 12 && 1 <= t.day <= 31
    requires t.hour < 24 && t.minute < 60 && t.second < 60
    ensures Encode(col, Time(t), withoutPrimaryID).Lit?
    ensures var text := Encode(col, Time(t), withoutPrimaryID).text;
      |text| == 21 && text[0] == '\'' && text[20] == '\''
      && text[1..11] == DateText(t) && text[11] == ' ' && text[12..20] == ClockText(t)
  {
    DateTextFields(t);
    ClockTextFields(t);
    var text := Quoted(DateTimeText(t));
    assert text == "'" + DateText(t) + " " + ClockText(t) + "'";
  }
}
