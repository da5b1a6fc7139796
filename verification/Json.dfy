/**
 The JSON of containers/browser-use/server.py: values, the writer json.dumps and the reader json.loads, each on texts.
 An object is the sequence of its fields in insertion order, as a Python dict keeps them, and a number its literal.
 The reader takes what Python's takes: the grammar of sections 2 to 7 of RFC 8259, the words NaN, Infinity and
 -Infinity, and objects that repeat a key, of which the last value counts. Inside strings it refuses the characters
 below the space.
 */
module JsonText {
  import opened Wrappers

  datatype Json =
    | Null
    | Bool(value: bool)
    | Num(literal: string)
    | Str(text: string)
    | Arr(items: seq<Json>)
    | Obj(fields: seq<Field>)

  datatype Field = Field(key: string, value: Json)

  // ------------------------------------------------------------ objects as field sequences

  function Lookup(fields: seq<Field>, key: string): Option<Json> {
    if fields == [] then None
    else if fields[0].key == key then Some(fields[0].value)
    else Lookup(fields[1..], key)
  }

  predicate Has(fields: seq<Field>, key: string) {
    Lookup(fields, key).Some?
  }

  // Assignment to a key: in place when the key is there, at the end when it is new.
  function Put(fields: seq<Field>, key: string, value: Json): seq<Field> {
    if fields == [] then [Field(key, value)]
    else if fields[0].key == key then [Field(key, value)] + fields[1..]
    else [fields[0]] + Put(fields[1..], key, value)
  }

  function Only(fields: seq<Field>, keys: set<string>): seq<Field> {
    if fields == [] then []
    else if fields[0].key in keys then [fields[0]] + Only(fields[1..], keys)
    else Only(fields[1..], keys)
  }

  function Except(fields: seq<Field>, keys: set<string>): seq<Field> {
    if fields == [] then []
    else if fields[0].key in keys then Except(fields[1..], keys)
    else [fields[0]] + Except(fields[1..], keys)
  }

  lemma {:induction false} LookupPut(fields: seq<Field>, key: string, value: Json, k: string)
    ensures Lookup(Put(fields, key, value), k) == if k == key then Some(value) else Lookup(fields, k)
  {
    if fields != [] && fields[0].key != key {
      LookupPut(fields[1..], key, value, k);
      assert Put(fields, key, value)[1..] == Put(fields[1..], key, value);
    } else if fields != [] {
      assert Put(fields, key, value)[1..] == fields[1..];
    }
  }

  lemma {:induction false} LookupOnly(fields: seq<Field>, keys: set<string>, k: string)
    ensures Lookup(Only(fields, keys), k) == if k in keys then Lookup(fields, k) else None
  {
    if fields != [] {
      LookupOnly(fields[1..], keys, k);
      if fields[0].key in keys {
        assert Only(fields, keys)[1..] == Only(fields[1..], keys);
      }
    }
  }

  lemma {:induction false} LookupExcept(fields: seq<Field>, keys: set<string>, k: string)
    ensures Lookup(Except(fields, keys), k) == if k in keys then None else Lookup(fields, k)
  {
    if fields != [] {
      LookupExcept(fields[1..], keys, k);
      if fields[0].key !in keys {
        assert Except(fields, keys)[1..] == Except(fields[1..], keys);
      }
    }
  }

  // An assignment to a key that is there moves nothing.
  lemma {:induction false} PutInPlace(fields: seq<Field>, key: string, value: Json)
    requires Has(fields, key)
    ensures |Put(fields, key, value)| == |fields|
    ensures forall i :: 0 <= i < |fields| ==>
      var put := Put(fields, key, value)[i];
      put.key == fields[i].key && (fields[i].key != key ==> put == fields[i])
  {
    if fields[0].key != key {
      PutInPlace(fields[1..], key, value);
    }
  }

  lemma {:induction false} HasKeyAt(fields: seq<Field>, i: nat)
    requires i < |fields|
    ensures Has(fields, fields[i].key)
  {
    if i > 0 {
      HasKeyAt(fields[1..], i - 1);
    }
  }

  lemma {:induction false} KeyAtOf(fields: seq<Field>, key: string) returns (i: nat)
    requires Has(fields, key)
    ensures i < |fields| && fields[i].key == key && fields[i].value == Lookup(fields, key).value
  {
    if fields[0].key == key {
      i := 0;
    } else {
      i := KeyAtOf(fields[1..], key);
      i := i + 1;
    }
  }

  // Python's equality, which does not look at the order of an object's fields.
  predicate Equal(a: Json, b: Json) {
    match (a, b)
    case (Arr(xs), Arr(ys)) => |xs| == |ys| && forall i :: 0 <= i < |xs| ==> Equal(xs[i], ys[i])
    case (Obj(fs), Obj(gs)) =>
      && (forall j :: 0 <= j < |gs| ==> Has(fs, gs[j].key))
      && (forall i :: 0 <= i < |fs| ==>
            Has(gs, fs[i].key) && Equal(fs[i].value, Lookup(gs, fs[i].key).value))
    case _ => a == b
  }

  // ------------------------------------------------------------ writing JSON

  function HexDigit(n: nat): char
    requires n < 16
  {
    "0123456789abcdef"[n]
  }

  function EscapedChar(c: char): string {
    if c == '"' then "\\\""
    else if c == '\\' then "\\\\"
    else if c == '\n' then "\\n"
    else if c == '\r' then "\\r"
    else if c == '\t' then "\\t"
    else if c == '\U{0C}' then "\\f"
    else if c == '\U{08}' then "\\b"
    else if c < ' ' then
      "\\u00" + [HexDigit(c as int / 16), HexDigit(c as int % 16)]
    else [c]
  }

  function Escaped(s: string): string {
    if s == "" then "" else EscapedChar(s[0]) + Escaped(s[1..])
  }

  // json.dumps with ensure_ascii off.
  function Dumps(value: Json): string
    decreases value, 1
  {
    match value
    case Null => "null"
    case Bool(b) => if b then "true" else "false"
    case Num(literal) => literal
    case Str(text) => "\"" + Escaped(text) + "\""
    case Arr(items) => "[" + DumpsItems(items) + "]"
    case Obj(fields) => "{" + DumpsFields(fields) + "}"
  }

  function DumpsItems(items: seq<Json>): string
    decreases items, 0
  {
    if items == [] then ""
    else Dumps(items[0]) + (if |items| == 1 then "" else ", " + DumpsItems(items[1..]))
  }

  function DumpsFields(fields: seq<Field>): string
    decreases fields, 0
  {
    if fields == [] then ""
    else
      "\"" + Escaped(fields[0].key) + "\": " + Dumps(fields[0].value)
      + (if |fields| == 1 then "" else ", " + DumpsFields(fields[1..]))
  }

  // ------------------------------------------------------------ reading JSON

  /** What is read off the front of a text, and what is left of it. */
  datatype Read<T> = Bad | Good(value: T, rest: string)

  predicate IsJsonSpace(c: char) {
    c in " \t\n\r"
  }

  function SkipSpace(s: string): (rest: string)
    ensures |rest| <= |s| && (rest != "" ==> !IsJsonSpace(rest[0]))
  {
    if s != "" && IsJsonSpace(s[0]) then SkipSpace(s[1..]) else s
  }

  function HexValue(c: char): (r: Option<nat>)
    ensures r.Some? ==> r.value < 16
  {
    if '0' <= c <= '9' then Some(c as int - '0' as int)
    else if 'a' <= c <= 'f' then Some(c as int - 'a' as int + 10)
    else if 'A' <= c <= 'F' then Some(c as int - 'A' as int + 10)
    else None
  }

  function HexCode(s: string): (r: Option<nat>)
    ensures r.Some? ==> r.value < 0x10000 && |s| >= 4
  {
    if |s| < 4 || HexValue(s[0]).None? || HexValue(s[1]).None? || HexValue(s[2]).None? || HexValue(s[3]).None? then None
    else Some(((HexValue(s[0]).value * 16 + HexValue(s[1]).value) * 16 + HexValue(s[2]).value) * 16 + HexValue(s[3]).value)
  }

  // The character of a \u escape, two escapes for one beyond the first plane.
  function ReadUnicode(s: string): (r: Read<char>)
    ensures r.Good? ==> |r.rest| < |s|
  {
    match HexCode(s)
    case None => Bad
    case Some(code) =>
      if code < 0xD800 || 0xE000 <= code then Good(code as char, s[4..])
      else if code >= 0xDC00 || |s| < 6 || s[4] != '\\' || s[5] != 'u' then Bad
      else match HexCode(s[6..])
        case None => Bad
        case Some(low) =>
          if low < 0xDC00 || 0xE000 <= low then Bad
          else Good((0x10000 + (code - 0xD800) * 0x400 + (low - 0xDC00)) as char, s[10..])
  }

  // One character of a string literal.
  function ReadChar(s: string): (r: Read<char>)
    requires s != ""
    ensures r.Good? ==> |r.rest| < |s|
  {
    if s[0] < ' ' then Bad
    else if s[0] != '\\' then Good(s[0], s[1..])
    else if |s| == 1 then Bad
    else match s[1]
      case '"' => Good('"', s[2..])
      case '\\' => Good('\\', s[2..])
      case '/' => Good('/', s[2..])
      case 'n' => Good('\n', s[2..])
      case 'r' => Good('\r', s[2..])
      case 't' => Good('\t', s[2..])
      case 'f' => Good('\U{0C}', s[2..])
      case 'b' => Good('\U{08}', s[2..])
      case 'u' => ReadUnicode(s[2..])
      case _ => Bad
  }

  // The rest of a string literal, up to its closing quote.
  function ReadString(s: string): (r: Read<string>)
    ensures r.Good? ==> |r.rest| < |s|
  {
    if s == "" then Bad
    else if s[0] == '"' then Good("", s[1..])
    else match ReadChar(s)
      case Bad => Bad
      case Good(c, rest) =>
        match ReadString(rest)
        case Bad => Bad
        case Good(text, rest') => Good([c] + text, rest')
  }

  predicate IsDigit(c: char) {
    '0' <= c <= '9'
  }

  predicate StartsWithDigit(s: string) {
    s != "" && IsDigit(s[0])
  }

  function AfterDigits(s: string): string {
    if StartsWithDigit(s) then AfterDigits(s[1..]) else s
  }

  function AfterSign(s: string): string {
    if s != "" && (s[0] == '-' || s[0] == '+') then s[1..] else s
  }

  // The grammar of numbers: digits without a leading zero, a fraction, an exponent; and the three words Python adds.
  predicate IsNumber(s: string) {
    || s in ["NaN", "Infinity", "-Infinity"]
    || var whole := if s != "" && s[0] == '-' then s[1..] else s;
       && StartsWithDigit(whole)
       && IsFraction(if whole[0] == '0' then whole[1..] else AfterDigits(whole))
  }

  predicate IsFraction(s: string) {
    if s != "" && s[0] == '.' then StartsWithDigit(s[1..]) && IsExponent(AfterDigits(s[1..])) else IsExponent(s)
  }

  predicate IsExponent(s: string) {
    s == "" || ((s[0] == 'e' || s[0] == 'E') && StartsWithDigit(AfterSign(s[1..])) && AfterDigits(AfterSign(s[1..])) == "")
  }

  predicate IsNumberChar(c: char) {
    IsDigit(c) || c in "+-.eE"
  }

  function NumberChars(s: string): (n: nat)
    ensures n <= |s| && (forall i :: 0 <= i < n ==> IsNumberChar(s[i])) && (n < |s| ==> !IsNumberChar(s[n]))
  {
    if s != "" && IsNumberChar(s[0]) then 1 + NumberChars(s[1..]) else 0
  }

  function ReadAtom(s: string): (r: Read<Json>)
    ensures r.Good? ==> |r.rest| < |s|
  {
    if "null" <= s then Good(Null, s[4..])
    else if "true" <= s then Good(Bool(true), s[4..])
    else if "false" <= s then Good(Bool(false), s[5..])
    else if "NaN" <= s then Good(Num("NaN"), s[3..])
    else if "Infinity" <= s then Good(Num("Infinity"), s[8..])
    else if "-Infinity" <= s then Good(Num("-Infinity"), s[9..])
    else if IsNumber(s[..NumberChars(s)]) then Good(Num(s[..NumberChars(s)]), s[NumberChars(s)..])
    else Bad
  }

  // One value that begins with the text's first character.
  function ReadValue(s: string): (r: Read<Json>)
    ensures r.Good? ==> |r.rest| < |s|
    decreases |s|, 0
  {
    if s == "" then Bad
    else if s[0] == '"' then
      match ReadString(s[1..])
      case Bad => Bad
      case Good(text, rest) => Good(Str(text), rest)
    else if s[0] == '[' then
      var inside := SkipSpace(s[1..]);
      if inside != "" && inside[0] == ']' then Good(Arr([]), inside[1..])
      else
        match ReadItems(inside)
        case Bad => Bad
        case Good(items, rest) => Good(Arr(items), rest)
    else if s[0] == '{' then
      var inside := SkipSpace(s[1..]);
      if inside != "" && inside[0] == '}' then Good(Obj([]), inside[1..])
      else
        match ReadFields(inside)
        case Bad => Bad
        case Good(pairs, rest) => Good(Obj(FromPairs(pairs)), rest)
    else ReadAtom(s)
  }

  // The items of a list from one of them to the closing bracket.
  function ReadItems(s: string): (r: Read<seq<Json>>)
    ensures r.Good? ==> |r.rest| < |s|
    decreases |s|, 1
  {
    match ReadValue(s)
    case Bad => Bad
    case Good(item, after) =>
      var next := SkipSpace(after);
      if next == "" then Bad
      else if next[0] == ']' then Good([item], next[1..])
      else if next[0] != ',' then Bad
      else
        match ReadItems(SkipSpace(next[1..]))
        case Bad => Bad
        case Good(items, rest) => Good([item] + items, rest)
  }

  // The fields of an object from one of them to the closing brace, as they stand.
  function ReadFields(s: string): (r: Read<seq<Field>>)
    ensures r.Good? ==> |r.rest| < |s|
    decreases |s|, 1
  {
    if s == "" || s[0] != '"' then Bad
    else match ReadString(s[1..])
      case Bad => Bad
      case Good(key, after) =>
        var colon := SkipSpace(after);
        if colon == "" || colon[0] != ':' then Bad
        else match ReadValue(SkipSpace(colon[1..]))
          case Bad => Bad
          case Good(value, after') =>
            var next := SkipSpace(after');
            if next == "" then Bad
            else if next[0] == '}' then Good([Field(key, value)], next[1..])
            else if next[0] != ',' then Bad
            else
              match ReadFields(SkipSpace(next[1..]))
              case Bad => Bad
              case Good(fields, rest) => Good([Field(key, value)] + fields, rest)
  }

  // A dict of these pairs: a key that comes again keeps its place and takes the later value.
  function FromPairs(pairs: seq<Field>): seq<Field> {
    if pairs == [] then []
    else Put(FromPairs(pairs[..|pairs| - 1]), pairs[|pairs| - 1].key, pairs[|pairs| - 1].value)
  }

  // json.loads, None where it raises.
  function Loads(s: string): Option<Json> {
    match ReadValue(SkipSpace(s))
    case Bad => None
    case Good(value, rest) => if SkipSpace(rest) == "" then Some(value) else None
  }

  // ------------------------------------------------------------ what is written is read back

  /** A value as the reader makes them: no key twice, and numbers spelled as numbers. */
  predicate WellFormed(value: Json)
    decreases value, 1
  {
    match value
    case Num(literal) => IsNumber(literal)
    case Arr(items) => forall i :: 0 <= i < |items| ==> WellFormed(items[i])
    case Obj(fields) => WellFormedFields(fields)
    case _ => true
  }

  predicate WellFormedFields(fields: seq<Field>)
    decreases fields, 0
  {
    && (forall i :: 0 <= i < |fields| ==> WellFormed(fields[i].value))
    && (forall i, j :: 0 <= i < j < |fields| ==> fields[i].key != fields[j].key)
  }

  lemma HexReadsBack(n: nat)
    requires n < 16
    ensures HexValue(HexDigit(n)) == Some(n)
  {
  }

  /** Four hexadecimal digits. */
  function HexFour(n: nat): string
    requires n < 0x10000
  {
    [HexDigit(n / 16 / 16 / 16), HexDigit(n / 16 / 16 % 16), HexDigit(n / 16 % 16), HexDigit(n % 16)]
  }

  lemma HexFourReadsBack(n: nat, rest: string)
    requires n < 0x10000
    ensures HexCode(HexFour(n) + rest) == Some(n) && (HexFour(n) + rest)[4..] == rest
  {
    hide HexValue, HexDigit;
    HexReadsBack(n / 16 / 16 / 16);
    HexReadsBack(n / 16 / 16 % 16);
    HexReadsBack(n / 16 % 16);
    HexReadsBack(n % 16);
  }

  /** Any character as json.dumps writes it with ensure_ascii on: one escape, or a surrogate pair of two. */
  function AsciiEscaped(c: char): string {
    if c as int < 0x10000 then "\\u" + HexFour(c as int)
    else "\\u" + HexFour(0xD800 + (c as int - 0x10000) / 0x400) + "\\u" + HexFour(0xDC00 + (c as int - 0x10000) % 0x400)
  }

  /** Escapes are read as the characters they stand for. */
  lemma EscapeReadsBack(c: char, rest: string)
    ensures ReadChar(AsciiEscaped(c) + rest) == Good(c, rest)
  {
    hide HexFour, ReadUnicode, ReadChar;
    if c as int < 0x10000 {
      ReadsEscape(HexFour(c as int), rest);
      OneReadsBack(c, rest);
    } else {
      var high, low := 0xD800 + (c as int - 0x10000) / 0x400, 0xDC00 + (c as int - 0x10000) % 0x400;
      var pair := HexFour(high) + ("\\u" + HexFour(low));
      ReadsEscape(pair, rest);
      PairReadsBack(high, low, rest);
      PairGrouped("\\u", HexFour(high), HexFour(low), rest);
    }
  }

  lemma PairGrouped(u: string, high: string, low: string, rest: string)
    ensures u + high + u + low == u + (high + (u + low))
    ensures high + (u + low) + rest == high + (u + (low + rest))
  {
  }

  lemma ReadsEscape(code: string, rest: string)
    ensures ReadChar("\\u" + code + rest) == ReadUnicode(code + rest)
  {
    hide ReadUnicode;
    assert ("\\u" + code + rest)[2..] == code + rest;
  }

  lemma OneReadsBack(c: char, rest: string)
    requires c as int < 0x10000
    ensures ReadUnicode(HexFour(c as int) + rest) == Good(c, rest)
  {
    hide HexCode, HexFour;
    HexFourReadsBack(c as int, rest);
  }

  lemma PairReadsBack(high: nat, low: nat, rest: string)
    requires 0xD800 <= high < 0xDC00 <= low < 0xE000
    ensures ReadUnicode(HexFour(high) + ("\\u" + (HexFour(low) + rest)))
            == Good((0x10000 + (high - 0xD800) * 0x400 + (low - 0xDC00)) as char, rest)
  {
    hide HexCode, HexFour;
    var second := HexFour(low) + rest;
    var s := HexFour(high) + ("\\u" + second);
    HexFourReadsBack(high, "\\u" + second);
    HexFourReadsBack(low, rest);
    assert s[4..] == "\\u" + second;
    assert s[4] == '\\' && s[5] == 'u' && s[6..] == second;
    assert s[10..] == second[4..];
  }

  lemma ControlReadsBack(c: char, rest: string)
    requires c < ' ' && c !in "\n\r\t\U{0C}\U{08}"
    ensures ReadChar(EscapedChar(c) + rest) == Good(c, rest)
  {
    hide HexCode, ReadChar;
    EscapeReadsBack(c, rest);
    assert EscapedChar(c) == AsciiEscaped(c);
  }

  lemma CharReadsBack(c: char, rest: string)
    ensures EscapedChar(c) != "" && EscapedChar(c)[0] != '"'
    ensures ReadChar(EscapedChar(c) + rest) == Good(c, rest)
  {
    hide ReadUnicode;
    if c < ' ' && c !in "\n\r\t\U{0C}\U{08}" {
      ControlReadsBack(c, rest);
    } else {
      assert |EscapedChar(c)| == 2 ==> (EscapedChar(c) + rest)[2..] == rest;
      assert |EscapedChar(c)| == 1 ==> (EscapedChar(c) + rest)[1..] == rest;
    }
  }

  lemma {:induction false} StringReadsBack(text: string, rest: string)
    ensures ReadString(Escaped(text) + "\"" + rest) == Good(text, rest)
  {
    hide EscapedChar, ReadChar;
    if text == "" {
      assert Escaped(text) + "\"" + rest == "\"" + rest;
      assert ("\"" + rest)[1..] == rest;
    } else {
      var more := Escaped(text[1..]) + "\"" + rest;
      StringReadsBack(text[1..], rest);
      CharReadsBack(text[0], more);
      assert Escaped(text) + "\"" + rest == EscapedChar(text[0]) + more;
      assert [text[0]] + text[1..] == text;
    }
  }

  lemma {:induction false} DigitsAreNumberChars(s: string)
    requires forall i :: 0 <= i < |AfterDigits(s)| ==> IsNumberChar(AfterDigits(s)[i])
    ensures forall i :: 0 <= i < |s| ==> IsNumberChar(s[i])
  {
    if StartsWithDigit(s) {
      assert AfterDigits(s[1..]) == AfterDigits(s);
      DigitsAreNumberChars(s[1..]);
      assert forall i :: 0 < i < |s| ==> s[i] == s[1..][i - 1];
    } else {
      assert AfterDigits(s) == s;
    }
  }

  predicate AllDigits(s: string) {
    s != "" && forall i :: 0 <= i < |s| ==> IsDigit(s[i])
  }

  /** The parts of a number in JSON's grammar. */
  predicate Spells(sign: string, whole: string, fraction: string, exponent: string) {
    && sign in ["", "-"]
    && AllDigits(whole) && (whole[0] == '0' ==> whole == "0")
    && (fraction == "" || (fraction[0] == '.' && AllDigits(fraction[1..])))
    && (exponent == "" || (exponent[0] in "eE" && AllDigits(AfterSign(exponent[1..]))))
  }

  /** Digits followed by something else are skipped up to there. */
  lemma {:induction false} AfterDigitsExactly(digits: string, rest: string)
    requires AllDigits(digits) && !StartsWithDigit(rest)
    ensures AfterDigits(digits + rest) == rest
  {
    assert (digits + rest)[1..] == digits[1..] + rest;
    if |digits| > 1 {
      AfterDigitsExactly(digits[1..], rest);
    } else {
      assert digits[1..] + rest == rest;
    }
  }

  lemma {:induction false} DigitsSplit(s: string)
    requires StartsWithDigit(s)
    ensures exists digits :: AllDigits(digits) && s == digits + AfterDigits(s)
    ensures !StartsWithDigit(AfterDigits(s))
  {
    if StartsWithDigit(s[1..]) {
      DigitsSplit(s[1..]);
      var digits :| AllDigits(digits) && s[1..] == digits + AfterDigits(s[1..]);
      assert AllDigits([s[0]] + digits) && s == ([s[0]] + digits) + AfterDigits(s);
    } else {
      assert AfterDigits(s) == s[1..] && AllDigits([s[0]]) && s == [s[0]] + s[1..];
    }
  }

  lemma ExponentExactly(s: string)
    ensures IsExponent(s) <==> Spells("", "0", "", s)
  {
    if s != "" && (s[0] == 'e' || s[0] == 'E') {
      var digits := AfterSign(s[1..]);
      if AllDigits(digits) {
        AfterDigitsExactly(digits, "");
        assert digits + "" == digits;
      }
      if StartsWithDigit(digits) && AfterDigits(digits) == "" {
        DigitsSplit(digits);
      }
    }
  }

  ghost predicate HasFraction(s: string) {
    exists fraction, exponent :: s == fraction + exponent && Spells("", "0", fraction, exponent)
  }

  lemma FractionHasParts(s: string)
    requires IsFraction(s)
    ensures HasFraction(s)
  {
    hide IsExponent, AfterSign;
    if s != "" && s[0] == '.' {
      DigitsSplit(s[1..]);
      var digits :| AllDigits(digits) && s[1..] == digits + AfterDigits(s[1..]);
      var fraction, exponent := "." + digits, AfterDigits(s[1..]);
      ExponentExactly(exponent);
      assert fraction[1..] == digits && s == [s[0]] + s[1..] && s == fraction + exponent;
      assert Spells("", "0", fraction, exponent);
    } else {
      ExponentExactly(s);
      assert s == "" + s && Spells("", "0", "", s);
    }
  }

  lemma PartsAreFraction(fraction: string, exponent: string)
    requires Spells("", "0", fraction, exponent)
    ensures IsFraction(fraction + exponent)
  {
    hide IsExponent, AfterSign;
    ExponentExactly(exponent);
    if fraction == "" {
      assert fraction + exponent == exponent;
    } else {
      assert (fraction + exponent)[1..] == fraction[1..] + exponent;
      AfterDigitsExactly(fraction[1..], exponent);
    }
  }

  /** A text is a number exactly if it is composed of these parts, or is one of Python's three words. */
  lemma NumbersExactly(s: string)
    ensures IsNumber(s) <==>
      || s in ["NaN", "Infinity", "-Infinity"]
      || exists sign, whole, fraction, exponent ::
           s == sign + whole + fraction + exponent && Spells(sign, whole, fraction, exponent)
  {
    hide IsFraction;
    if IsNumber(s) && s !in ["NaN", "Infinity", "-Infinity"] {
      NumberHasParts(s);
    }
    if sign, whole, fraction, exponent :|
      s == sign + whole + fraction + exponent && Spells(sign, whole, fraction, exponent)
    {
      PartsAreNumber(sign, whole, fraction, exponent);
    }
  }

  lemma NumberHasParts(s: string)
    requires IsNumber(s) && s !in ["NaN", "Infinity", "-Infinity"]
    ensures exists sign, whole, fraction, exponent ::
              s == sign + whole + fraction + exponent && Spells(sign, whole, fraction, exponent)
  {
    hide IsFraction, AfterSign;
    var sign := if s[0] == '-' then "-" else "";
    var unsigned := if s[0] == '-' then s[1..] else s;
    var rest := if unsigned[0] == '0' then unsigned[1..] else AfterDigits(unsigned);
    var whole := WholePart(unsigned, rest);
    FractionHasParts(rest);
    var fraction, exponent :| rest == fraction + exponent && Spells("", "0", fraction, exponent);
    Composed(sign, whole, fraction, exponent);
    assert s == sign + unsigned;
    assert Spells(sign, whole, fraction, exponent);
  }

  lemma WholePart(unsigned: string, rest: string) returns (whole: string)
    requires StartsWithDigit(unsigned) && rest == if unsigned[0] == '0' then unsigned[1..] else AfterDigits(unsigned)
    ensures unsigned == whole + rest && AllDigits(whole) && (whole[0] == '0' ==> whole == "0")
  {
    if unsigned[0] == '0' {
      whole := "0";
    } else {
      DigitsSplit(unsigned);
      whole :| AllDigits(whole) && unsigned == whole + AfterDigits(unsigned);
      assert unsigned[0] == whole[0];
    }
  }

  lemma Composed(sign: string, whole: string, fraction: string, exponent: string)
    ensures sign + whole + fraction + exponent == sign + (whole + (fraction + exponent))
  {
  }

  lemma PartsAreNumber(sign: string, whole: string, fraction: string, exponent: string)
    requires Spells(sign, whole, fraction, exponent)
    ensures IsNumber(sign + whole + fraction + exponent)
  {
    hide IsFraction;
    var rest := fraction + exponent;
    var s := sign + whole + fraction + exponent;
    PartsAreFraction(fraction, exponent);
    assert s == sign + (whole + rest);
    assert s[|sign|..] == whole + rest;
    assert !StartsWithDigit(rest);
    if whole == "0" {
      assert (whole + rest)[1..] == rest;
    } else {
      AfterDigitsExactly(whole, rest);
    }
  }

  /** The grammar uses no other characters than those of which a number is read. */
  lemma NumberIsNumberChars(s: string)
    requires IsNumber(s) && s !in ["NaN", "Infinity", "-Infinity"]
    ensures forall i :: 0 <= i < |s| ==> IsNumberChar(s[i])
    ensures s != "" && (IsDigit(s[0]) || (s[0] == '-' && |s| > 1))
  {
    var whole := if s[0] == '-' then s[1..] else s;
    var fraction := if whole[0] == '0' then whole[1..] else AfterDigits(whole);
    var exponent := if fraction != "" && fraction[0] == '.' then AfterDigits(fraction[1..]) else fraction;
    if exponent != "" {
      DigitsAreNumberChars(AfterSign(exponent[1..]));
      Prepended(exponent);
      if AfterSign(exponent[1..]) != exponent[1..] {
        Prepended(exponent[1..]);
      }
    }
    if fraction != "" && fraction[0] == '.' {
      DigitsAreNumberChars(fraction[1..]);
      Prepended(fraction);
    }
    if whole[0] == '0' {
      Prepended(whole);
    } else {
      DigitsAreNumberChars(whole);
    }
    if s[0] == '-' {
      Prepended(s);
      assert s[1] == whole[0];
    }
  }

  lemma Prepended(s: string)
    ensures s != "" && IsNumberChar(s[0]) && (forall i :: 0 <= i < |s[1..]| ==> IsNumberChar(s[1..][i])) ==>
              forall i :: 0 <= i < |s| ==> IsNumberChar(s[i])
  {
    if s != "" {
      assert s == [s[0]] + s[1..];
    }
  }

  /** Where a value ends: at the end of the text or at a character that cannot continue a number. */
  predicate Stops(rest: string) {
    rest == "" || !IsNumberChar(rest[0])
  }

  lemma NumberReadsBack(literal: string, rest: string)
    requires IsNumber(literal) && literal !in ["NaN", "Infinity", "-Infinity"] && Stops(rest)
    ensures ReadValue(literal + rest) == Good(Num(literal), rest)
  {
    hide IsNumber;
    var s := literal + rest;
    NumberIsNumberChars(literal);
    assert NumberChars(s) == |literal| by {
      assert forall i :: 0 <= i < |literal| ==> s[i] == literal[i];
      assert rest != "" ==> s[|literal|] == rest[0];
    }
    assert s[|literal|..] == rest && s[..|literal|] == literal;
    assert s[0] == literal[0] && (|literal| > 1 ==> s[1] == literal[1]);
    NoWordInFront(s);
  }

  lemma NoWordInFront(s: string)
    requires s != "" && (IsDigit(s[0]) || (s[0] == '-' && |s| > 1 && IsNumberChar(s[1])))
    ensures !("null" <= s) && !("true" <= s) && !("false" <= s)
    ensures !("NaN" <= s) && !("Infinity" <= s) && !("-Infinity" <= s)
  {
    assert "null"[0] == 'n' && "true"[0] == 't' && "false"[0] == 'f' && "NaN"[0] == 'N' && "Infinity"[0] == 'I';
    assert "-Infinity"[0] == '-' && "-Infinity"[1] == 'I';
  }

  lemma LiteralReadsBack(value: Json, rest: string)
    requires value.Null? || value.Bool?
    ensures ReadValue(Dumps(value) + rest) == Good(value, rest)
  {
    hide IsNumber, NumberChars;
    var s := Dumps(value) + rest;
    assert s[0] == Dumps(value)[0] && s[|Dumps(value)|..] == rest;
  }

  lemma SpecialReadsBack(word: string, rest: string)
    requires word in ["NaN", "Infinity", "-Infinity"]
    ensures ReadValue(word + rest) == Good(Num(word), rest)
  {
    hide IsNumber, NumberChars;
    var s := word + rest;
    assert s[0] == word[0] && s[|word|..] == rest;
  }

  /** A value begins with none of the characters that separate and close. */
  predicate StartsValue(s: string) {
    s != "" && !IsJsonSpace(s[0]) && s[0] != ']' && s[0] != '}'
  }

  lemma DumpsStarts(value: Json, rest: string)
    requires WellFormed(value)
    ensures StartsValue(Dumps(value) + rest)
  {
    if value.Num? && value.literal !in ["NaN", "Infinity", "-Infinity"] {
      NumberIsNumberChars(value.literal);
    }
  }

  lemma OneSpace(s: string)
    requires StartsValue(s)
    ensures SkipSpace(" " + s) == s && SkipSpace(s) == s
  {
    assert (" " + s)[1..] == s;
  }

  lemma Enclosed(open: string, text: string, close: string, rest: string)
    requires |open| == |close| == 1
    ensures var s := open + text + close + rest;
      s != "" && s[0] == open[0] && s[1..] == text + close + rest
    ensures text == "" ==> var inside := text + close + rest; inside != "" && inside[0] == close[0] && inside[1..] == rest
  {
  }

  lemma NothingWritten()
    ensures DumpsItems([]) == "" && DumpsFields([]) == ""
  {
  }

  lemma ReadsText(text: string, rest: string)
    ensures ReadValue(Dumps(Str(text)) + rest) == Good(Str(text), rest)
  {
    hide ReadString, Escaped;
    StringReadsBack(text, rest);
    assert (Dumps(Str(text)) + rest)[1..] == Escaped(text) + "\"" + rest;
  }

  lemma ReadsList(items: seq<Json>, rest: string)
    requires items != [] ==>
      var inside := DumpsItems(items) + "]" + rest; StartsValue(inside) && ReadItems(inside) == Good(items, rest)
    ensures ReadValue(Dumps(Arr(items)) + rest) == Good(Arr(items), rest)
  {
    hide ReadItems, DumpsItems;
    Enclosed("[", DumpsItems(items), "]", rest);
    NothingWritten();
  }

  lemma ReadsObject(fields: seq<Field>, rest: string)
    requires FromPairs(fields) == fields
    requires fields != [] ==>
      var inside := DumpsFields(fields) + "}" + rest; StartsValue(inside) && ReadFields(inside) == Good(fields, rest)
    ensures ReadValue(Dumps(Obj(fields)) + rest) == Good(Obj(fields), rest)
  {
    hide ReadFields, FromPairs, DumpsFields;
    Enclosed("{", DumpsFields(fields), "}", rest);
    NothingWritten();
  }

  /** What was written for a value is read as that value, whatever follows it. */
  lemma {:induction false} ReadsBack(value: Json, rest: string)
    requires WellFormed(value) && Stops(rest)
    ensures ReadValue(Dumps(value) + rest) == Good(value, rest)
    decreases value, 1
  {
    hide IsNumber, ReadValue, ReadItems, ReadFields;
    match value
    case Num(literal) =>
      if literal in ["NaN", "Infinity", "-Infinity"] {
        SpecialReadsBack(literal, rest);
      } else {
        NumberReadsBack(literal, rest);
      }
    case Str(text) => ReadsText(text, rest);
    case Arr(items) =>
      if items != [] {
        ItemsReadBack(items, rest);
      }
      ReadsList(items, rest);
    case Obj(fields) =>
      if fields != [] {
        FieldsReadBack(fields, rest);
      }
      PairsOfDistinct(fields);
      ReadsObject(fields, rest);
    case _ => LiteralReadsBack(value, rest);
  }

  lemma Regrouped(a: string, b: string, c: string, close: string, rest: string)
    ensures (a + b + c) + close + rest == a + (b + (c + close + rest))
  {
  }

  /** What follows the first item in the text of a list. */
  function AfterItem(items: seq<Json>, rest: string): string
    requires items != []
  {
    (if |items| == 1 then "" else ", " + DumpsItems(items[1..])) + "]" + rest
  }

  lemma FirstItem(items: seq<Json>, rest: string)
    requires items != []
    ensures DumpsItems(items) + "]" + rest == Dumps(items[0]) + AfterItem(items, rest)
  {
    hide Dumps;
    Grouped(Dumps(items[0]), if |items| == 1 then "" else ", " + DumpsItems(items[1..]), "]", rest);
  }

  lemma NextItem(items: seq<Json>, rest: string)
    requires items != []
    ensures var tail := AfterItem(items, rest);
      && tail != "" && tail[0] == (if |items| == 1 then ']' else ',')
      && tail[1..] == if |items| == 1 then rest else " " + (DumpsItems(items[1..]) + "]" + rest)
    ensures [items[0]] + items[1..] == items && (|items| == 1 ==> [items[0]] == items)
  {
    hide DumpsItems;
  }

  lemma Grouped(b: string, c: string, close: string, rest: string)
    ensures (b + c) + close + rest == b + (c + close + rest)
  {
  }

  lemma {:induction false} ItemsReadBack(items: seq<Json>, rest: string)
    requires items != [] && forall i :: 0 <= i < |items| ==> WellFormed(items[i])
    ensures var s := DumpsItems(items) + "]" + rest;
      StartsValue(s) && ReadItems(s) == Good(items, rest)
    decreases items, 0
  {
    hide ReadValue, Dumps, DumpsItems, AfterItem, WellFormed;
    var tail := AfterItem(items, rest);
    FirstItem(items, rest);
    NextItem(items, rest);
    DumpsStarts(items[0], tail);
    ReadsBack(items[0], tail);
    if |items| > 1 {
      ItemsReadBack(items[1..], rest);
      OneSpace(DumpsItems(items[1..]) + "]" + rest);
    }
  }

  /** The text of one field, followed by its value. */
  function Named(key: string, after: string): string {
    "\"" + Escaped(key) + "\": " + after
  }

  lemma FieldReadsBack(key: string, value: Json, after: string, tail: string)
    requires StartsValue(after) && ReadValue(after) == Good(value, tail)
    requires tail != "" && (tail[0] == '}' || tail[0] == ',')
    ensures ReadFields(Named(key, after)) ==
      if tail[0] == '}' then Good([Field(key, value)], tail[1..])
      else match ReadFields(SkipSpace(tail[1..]))
        case Bad => Bad
        case Good(fields, rest) => Good([Field(key, value)] + fields, rest)
  {
    hide ReadValue, ReadString, Escaped;
    StringReadsBack(key, ": " + after);
    assert Named(key, after)[1..] == Escaped(key) + "\"" + (": " + after);
    OneSpace(after);
    assert (": " + after)[1..] == " " + after;
  }

  /** What follows the first value in the text of an object. */
  function AfterField(fields: seq<Field>, rest: string): string
    requires fields != []
  {
    (if |fields| == 1 then "" else ", " + DumpsFields(fields[1..])) + "}" + rest
  }

  lemma FirstField(fields: seq<Field>, rest: string)
    requires fields != []
    ensures DumpsFields(fields) + "}" + rest == Named(fields[0].key, Dumps(fields[0].value) + AfterField(fields, rest))
  {
    hide Escaped, Dumps;
    Regrouped("\"" + Escaped(fields[0].key) + "\": ", Dumps(fields[0].value),
              if |fields| == 1 then "" else ", " + DumpsFields(fields[1..]), "}", rest);
  }

  lemma NextField(fields: seq<Field>, rest: string)
    requires fields != []
    ensures var tail := AfterField(fields, rest);
      && tail != "" && tail[0] == (if |fields| == 1 then '}' else ',')
      && tail[1..] == if |fields| == 1 then rest else " " + (DumpsFields(fields[1..]) + "}" + rest)
    ensures [fields[0]] + fields[1..] == fields && (|fields| == 1 ==> [fields[0]] == fields)
  {
    hide DumpsFields;
  }

  lemma {:induction false} FieldsReadBack(fields: seq<Field>, rest: string)
    requires fields != [] && forall i :: 0 <= i < |fields| ==> WellFormed(fields[i].value)
    ensures var s := DumpsFields(fields) + "}" + rest;
      StartsValue(s) && ReadFields(s) == Good(fields, rest)
    decreases fields, 0
  {
    hide ReadValue, ReadFields, Escaped, Dumps, DumpsFields, WellFormed, AfterField;
    var Field(key, value) := fields[0];
    var tail := AfterField(fields, rest);
    FirstField(fields, rest);
    NextField(fields, rest);
    DumpsStarts(value, tail);
    ReadsBack(value, tail);
    FieldReadsBack(key, value, Dumps(value) + tail, tail);
    if |fields| > 1 {
      FieldsReadBack(fields[1..], rest);
      OneSpace(DumpsFields(fields[1..]) + "}" + rest);
    }
  }

  lemma {:induction false} PutNew(fields: seq<Field>, key: string, value: Json)
    requires forall i :: 0 <= i < |fields| ==> fields[i].key != key
    ensures Put(fields, key, value) == fields + [Field(key, value)]
  {
    if fields != [] {
      PutNew(fields[1..], key, value);
    }
  }

  /** Pairs without a repeated key are the fields of the dict they make. */
  lemma {:induction false} PairsOfDistinct(fields: seq<Field>)
    requires forall i, j :: 0 <= i < j < |fields| ==> fields[i].key != fields[j].key
    ensures FromPairs(fields) == fields
  {
    if fields != [] {
      var front, last := fields[..|fields| - 1], fields[|fields| - 1];
      PairsOfDistinct(front);
      PutNew(front, last.key, last.value);
    }
  }

  /** Every well-formed value is read back from what is written for it. */
  lemma LoadsDumps(value: Json)
    requires WellFormed(value)
    ensures Loads(Dumps(value)) == Some(value)
  {
    hide ReadValue, Dumps;
    DumpsStarts(value, "");
    OneSpace(Dumps(value) + "");
    ReadsBack(value, "");
    assert Dumps(value) + "" == Dumps(value);
  }

  // ------------------------------------------------------------ what is read is well-formed

  lemma {:induction false} PutWellFormed(fields: seq<Field>, key: string, value: Json)
    requires WellFormedFields(fields) && WellFormed(value)
    ensures WellFormedFields(Put(fields, key, value))
  {
    hide WellFormed, Lookup;
    if fields != [] && fields[0].key != key {
      var later := fields[1..];
      PutWellFormed(later, key, value);
      var put := Put(later, key, value);
      forall i | 0 <= i < |put| ensures put[i].key != fields[0].key {
        HasKeyAt(put, i);
        LookupPut(later, key, value, put[i].key);
        if put[i].key != key {
          var j := KeyAtOf(later, put[i].key);
          assert later[j] == fields[j + 1];
        }
      }
    }
  }

  lemma {:induction false} PairsWellFormed(pairs: seq<Field>)
    requires forall i :: 0 <= i < |pairs| ==> WellFormed(pairs[i].value)
    ensures WellFormedFields(FromPairs(pairs))
  {
    if pairs != [] {
      PairsWellFormed(pairs[..|pairs| - 1]);
      PutWellFormed(FromPairs(pairs[..|pairs| - 1]), pairs[|pairs| - 1].key, pairs[|pairs| - 1].value);
    }
  }

  lemma {:induction false} ReadIsWellFormed(s: string)
    ensures ReadValue(s).Good? ==> WellFormed(ReadValue(s).value)
    decreases |s|, 0
  {
    hide IsNumber, ReadString;
    if s != "" && s[0] == '[' {
      ItemsReadAreWellFormed(SkipSpace(s[1..]));
    } else if s != "" && s[0] == '{' {
      var inside := SkipSpace(s[1..]);
      FieldsReadAreWellFormed(inside);
      if ReadFields(inside).Good? {
        PairsWellFormed(ReadFields(inside).value);
      }
    } else {
      AtomIsWellFormed(s);
    }
  }

  lemma AtomIsWellFormed(s: string)
    ensures ReadAtom(s).Good? ==> WellFormed(ReadAtom(s).value)
  {
  }

  lemma {:induction false} ItemsReadAreWellFormed(s: string)
    ensures ReadItems(s).Good? ==> forall i :: 0 <= i < |ReadItems(s).value| ==> WellFormed(ReadItems(s).value[i])
    decreases |s|, 1
  {
    hide ReadValue, WellFormed;
    ReadIsWellFormed(s);
    if ReadValue(s).Good? {
      var next := SkipSpace(ReadValue(s).rest);
      if next != "" && next[0] == ',' {
        ItemsReadAreWellFormed(SkipSpace(next[1..]));
      }
    }
  }

  lemma {:induction false} FieldsReadAreWellFormed(s: string)
    ensures ReadFields(s).Good? ==> forall i :: 0 <= i < |ReadFields(s).value| ==> WellFormed(ReadFields(s).value[i].value)
    decreases |s|, 1
  {
    hide ReadValue, ReadString, WellFormed;
    if s != "" && ReadString(s[1..]).Good? {
      var colon := SkipSpace(ReadString(s[1..]).rest);
      if colon != "" {
        var after := SkipSpace(colon[1..]);
        ReadIsWellFormed(after);
        if ReadValue(after).Good? {
          var next := SkipSpace(ReadValue(after).rest);
          if next != "" && next[0] == ',' {
            FieldsReadAreWellFormed(SkipSpace(next[1..]));
          }
        }
      }
    }
  }

  /** Whatever is read is well-formed. */
  lemma LoadsWellFormed(s: string)
    ensures Loads(s).Some? ==> WellFormed(Loads(s).value)
  {
    hide ReadValue, WellFormed;
    ReadIsWellFormed(SkipSpace(s));
  }

  // ------------------------------------------------------------ well-formed fields

  lemma {:induction false} FilteredWellFormed(fields: seq<Field>, keys: set<string>)
    requires WellFormedFields(fields)
    ensures WellFormedFields(Only(fields, keys)) && WellFormedFields(Except(fields, keys))
  {
    hide WellFormed, Lookup;
    if fields != [] {
      var later := fields[1..];
      FilteredWellFormed(later, keys);
      HeadKeyIsNew(fields, Only(later, keys), keys);
      HeadKeyIsNew(fields, Except(later, keys), keys);
    }
  }

  /** None of the fields kept from those after the first has the first one's key. */
  lemma HeadKeyIsNew(fields: seq<Field>, kept: seq<Field>, keys: set<string>)
    requires fields != [] && WellFormedFields(fields)
    requires kept == Only(fields[1..], keys) || kept == Except(fields[1..], keys)
    ensures forall i :: 0 <= i < |kept| ==> kept[i].key != fields[0].key
  {
    hide WellFormed, Lookup;
    forall i | 0 <= i < |kept| ensures kept[i].key != fields[0].key {
      HasKeyAt(kept, i);
      LookupOnly(fields[1..], keys, kept[i].key);
      LookupExcept(fields[1..], keys, kept[i].key);
      var j := KeyAtOf(fields[1..], kept[i].key);
      assert fields[1..][j] == fields[j + 1];
    }
  }

  lemma FoundIsWellFormed(fields: seq<Field>, key: string)
    requires WellFormedFields(fields) && Has(fields, key)
    ensures WellFormed(Lookup(fields, key).value)
  {
    hide Lookup;
    var i := KeyAtOf(fields, key);
  }

  lemma SingleIsWellFormed(key: string, value: Json)
    requires WellFormed(value)
    ensures WellFormed(Obj([Field(key, value)]))
  {
  }

  lemma ObjectIsWellFormed(fields: seq<Field>)
    ensures WellFormed(Obj(fields)) <==> WellFormedFields(fields)
  {
  }

  /** Putting back the value that is there changes nothing. */
  lemma {:induction false} PutSame(fields: seq<Field>, key: string)
    requires Has(fields, key)
    ensures Put(fields, key, Lookup(fields, key).value) == fields
  {
    if fields[0].key != key {
      PutSame(fields[1..], key);
    }
  }
}
