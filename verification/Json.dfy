/**
  Canonical JSON: compact separators, non-ASCII text kept, UTF-8 encoded.  The printer is injective,
  so equal bytes mean equal documents.
  */
module Json {
  import opened Common

  datatype Json =
    | JNull
    | JBool(flag: bool)
    | JInt(number: int)
    | JString(text: string)
    | JArray(items: seq<Json>)
    | JObject(members: seq<Member>)

  datatype Member = Member(key: string, value: Json)

  // ------------------------------------------------------------------------------------- printing

  function Digit(d: nat): char
    requires d < 10
  {
    "0123456789"[d]
  }

  function HexDigit(d: nat): char
    requires d < 16
  {
    "0123456789abcdef"[d]
  }

  function Digits(n: nat): (s: string)
    ensures |s| > 0
  {
    if n < 10 then [Digit(n)] else Digits(n / 10) + [Digit(n % 10)]
  }

  function Decimal(n: int): string {
    if n < 0 then "-" + Digits(-n) else Digits(n)
  }

  /** The short escapes of section 7 of RFC 8259 where there is one, \u00xx for other control characters. */
  function Escape(c: char): (s: string)
    ensures |s| > 0
  {
    if c == '\"' then "\\\""
    else if c == '\\' then "\\\\"
    else if c == '\n' then "\\n"
    else if c == '\r' then "\\r"
    else if c == '\t' then "\\t"
    else if c == '\U{8}' then "\\b"
    else if c == '\U{c}' then "\\f"
    else if c < ' ' then "\\u00" + [HexDigit(c as nat / 16), HexDigit(c as nat % 16)]
    else [c]
  }

  /** The escaped characters of `s`, the closing quote, and what follows. */
  function Escaped(s: string, rest: string): string {
    if s == "" then "\"" + rest else Escape(s[0]) + Escaped(s[1..], rest)
  }

  function Quoted(s: string, rest: string): string {
    "\"" + Escaped(s, rest)
  }

  /** The text of `j` followed by `rest`. */
  function Text(j: Json, rest: string): string
    decreases j, 1
  {
    match j
    case JNull => "null" + rest
    case JBool(flag) => (if flag then "true" else "false") + rest
    case JInt(n) => Decimal(n) + rest
    case JString(s) => Quoted(s, rest)
    case JArray(items) => "[" + (if items == [] then "]" + rest else Text(items[0], Items(items[1..], rest)))
    case JObject(members) => "{" + (if members == [] then "}" + rest else MemberText(members[0], Members(members[1..], rest)))
  }

  /** The remaining items of an array and its closing bracket. */
  function Items(items: seq<Json>, rest: string): string
    decreases items, 0
  {
    if items == [] then "]" + rest else "," + Text(items[0], Items(items[1..], rest))
  }

  function MemberText(m: Member, rest: string): string
    decreases m, 0
  {
    Quoted(m.key, ":" + Text(m.value, rest))
  }

  function Members(members: seq<Member>, rest: string): string
    decreases members, 0
  {
    if members == [] then "}" + rest else "," + MemberText(members[0], Members(members[1..], rest))
  }

  function Print(j: Json): string {
    Text(j, "")
  }

  // ------------------------------------------------------------------- each token delimits itself

  /** The texts of the scalars, and what stands around and between the items of an array. */
  lemma PrintedForms()
    ensures Print(JNull) == "null" && Print(JBool(true)) == "true" && Print(JBool(false)) == "false"
    ensures Print(JInt(-10)) == "-10" && Print(JInt(7)) == "7"
    ensures Print(JArray([])) == "[]" && Print(JArray([JBool(true), JNull])) == "[true,null]"
  {
    assert Digits(10) == "10" && Digits(7) == "7";
    var items := [JBool(true), JNull];
    assert items[1..] == [JNull] && [JNull][1..] == [];
    assert Text(JNull, Items([], "")) == "null]";
    assert Items([JNull], "") == ",null]";
    assert Text(JBool(true), ",null]") == "true,null]";
  }

  /** The escapes of section 7 of RFC 8259; any other character stands for itself. */
  lemma EscapeTable(c: char)
    ensures Escape('\U{8}') == "\\b" && Escape('\t') == "\\t" && Escape('\n') == "\\n"
    ensures Escape('\U{c}') == "\\f" && Escape('\r') == "\\r"
    ensures Escape('\"') == "\\\"" && Escape('\\') == "\\\\"
    ensures Escape('\0') == "\\u0000" && Escape('\U{1f}') == "\\u001f"
    ensures c >= ' ' && c != '\"' && c != '\\' ==> Escape(c) == [c]
  {
  }

  predicate IsDigit(c: char) {
    '0' <= c <= '9'
  }

  predicate AllDigits(s: string) {
    forall i :: 0 <= i < |s| ==> IsDigit(s[i])
  }

  /** What may follow a number: nothing, or a character no number contains. */
  predicate Stops(s: string) {
    s == "" || s[0] == ',' || s[0] == ']' || s[0] == '}'
  }

  function Value(s: string): int {
    if s == "" then 0 else 10 * Value(s[..|s| - 1]) + (s[|s| - 1] as int - '0' as int)
  }

  lemma {:induction false} DigitsValue(n: nat)
    ensures AllDigits(Digits(n)) && Value(Digits(n)) == n
  {
    if n >= 10 {
      DigitsValue(n / 10);
      var s := Digits(n);
      assert s[..|s| - 1] == Digits(n / 10);
    } else {
      assert Digits(n)[..0] == "";
    }
  }

  lemma SameTail(s: string, x: string, y: string)
    requires s + x == s + y
    ensures x == y
  {
    assert x == (s + x)[|s|..] && y == (s + y)[|s|..];
  }

  lemma SamePrefix(s: string, x: string, t: string, y: string)
    requires s + x == t + y && |s| == |t|
    ensures s == t && x == y
  {
    assert s == (s + x)[..|s|] && t == (t + y)[..|t|];
    SameTail(s, x, y);
  }

  lemma CharAt(s: string, x: string, i: nat)
    requires i < |s|
    ensures (s + x)[i] == s[i]
  {
  }

  lemma NextChar(s: string, x: string)
    ensures x != "" ==> (s + x)[|s|] == x[0]
  {
  }

  /** A run of digits is not longer than another one of the same text that ends in a stop. */
  lemma DigitRunLength(s: string, x: string, t: string, y: string)
    requires AllDigits(s) && Stops(y) && s + x == t + y
    ensures |s| <= |t|
  {
    NextChar(t, y);
    assert forall i :: 0 <= i < |s| ==> (s + x)[i] == s[i];
  }

  /** Two runs of digits, each followed by a stop, in one text are the same run. */
  lemma DigitRun(s: string, x: string, t: string, y: string)
    requires AllDigits(s) && AllDigits(t) && Stops(x) && Stops(y) && s + x == t + y
    ensures s == t && x == y
  {
    DigitRunLength(s, x, t, y);
    DigitRunLength(t, y, s, x);
    SamePrefix(s, x, t, y);
  }

  lemma DecimalDelimits(m: int, x: string, n: int, y: string)
    requires Stops(x) && Stops(y) && Decimal(m) + x == Decimal(n) + y
    ensures m == n && x == y
  {
    var a, b := Magnitude(m), Magnitude(n);
    DecimalLeads(m, x);
    DecimalLeads(n, y);
    DigitsValue(a);
    DigitsValue(b);
    hide Value, Digits, Decimal;
    if m < 0 {
      SameTail("-", Digits(a) + x, Digits(b) + y);
    }
    DigitRun(Digits(a), x, Digits(b), y);
  }

  function Magnitude(n: int): nat {
    if n < 0 then -n else n
  }

  lemma DecimalLeads(n: int, x: string)
    ensures Decimal(n) + x == if n < 0 then "-" + (Digits(Magnitude(n)) + x) else Digits(Magnitude(n)) + x
    ensures (Decimal(n) + x)[0] == '-' <==> n < 0
  {
    if n >= 0 {
      DigitsValue(n);
      CharAt(Digits(n), x, 0);
    } else {
      assert "-" + Digits(-n) + x == "-" + (Digits(-n) + x);
    }
  }

  /** The second character of an escape is 'u' only in the long form. */
  lemma EscapeShape(c: char)
    ensures Escape(c)[0] == '\\' <==> |Escape(c)| > 1
    ensures |Escape(c)| > 1 ==> (Escape(c)[1] == 'u' <==> |Escape(c)| == 6)
    ensures |Escape(c)| in {1, 2, 6}
  {
  }

  lemma EscapeInjective(a: char, b: char)
    requires Escape(a) == Escape(b)
    ensures a == b
  {
    if |Escape(a)| == 6 {
      assert Escape(a)[4] == Escape(b)[4] && Escape(a)[5] == Escape(b)[5];
    } else if |Escape(a)| == 2 {
      assert Escape(a)[1] == Escape(b)[1];
    } else {
      assert Escape(a)[0] == Escape(b)[0];
    }
  }

  lemma EscapeDelimits(a: char, x: string, b: char, y: string)
    requires Escape(a) + x == Escape(b) + y
    ensures a == b && x == y
  {
    hide Escape;
    var s, t := Escape(a), Escape(b);
    EscapeShape(a);
    EscapeShape(b);
    CharAt(s, x, 0);
    CharAt(t, y, 0);
    if s[0] == '\\' {
      CharAt(s, x, 1);
      CharAt(t, y, 1);
    }
    SamePrefix(s, x, t, y);
    EscapeInjective(a, b);
  }

  lemma EscapedLeads(s: string, rest: string)
    ensures |Escaped(s, rest)| > 0
    ensures s == "" <==> Escaped(s, rest)[0] == '\"'
  {
  }

  lemma {:induction false} EscapedDelimits(s: string, x: string, t: string, y: string)
    requires Escaped(s, x) == Escaped(t, y)
    ensures s == t && x == y
  {
    EscapedLeads(s, x);
    EscapedLeads(t, y);
    if s == "" {
      SameTail("\"", x, y);
    } else {
      EscapeDelimits(s[0], Escaped(s[1..], x), t[0], Escaped(t[1..], y));
      EscapedDelimits(s[1..], x, t[1..], y);
      assert s == [s[0]] + s[1..] && t == [t[0]] + t[1..];
    }
  }

  lemma QuotedDelimits(s: string, x: string, t: string, y: string)
    requires Quoted(s, x) == Quoted(t, y)
    ensures s == t && x == y
  {
    SameTail("\"", Escaped(s, x), Escaped(t, y));
    EscapedDelimits(s, x, t, y);
  }

  // ------------------------------------------------------------------------- and so does a document

  /** A printed value's first character tells its kind. */
  predicate Leads(j: Json, c: char) {
    match j
    case JNull => c == 'n'
    case JBool(flag) => c == if flag then 't' else 'f'
    case JInt(_) => c == '-' || IsDigit(c)
    case JString(_) => c == '\"'
    case JArray(_) => c == '['
    case JObject(_) => c == '{'
  }

  lemma TextLeads(j: Json, rest: string)
    ensures |Text(j, rest)| > 0 && Leads(j, Text(j, rest)[0])
  {
    if j.JInt? {
      DigitsValue(if j.number < 0 then -j.number else j.number);
      CharAt(Decimal(j.number), rest, 0);
    }
  }

  lemma {:induction false} TextDelimits(a: Json, x: string, b: Json, y: string)
    requires Stops(x) && Stops(y) && Text(a, x) == Text(b, y)
    ensures a == b && x == y
    decreases a, 2
  {
    TextLeads(a, x);
    TextLeads(b, y);
    match a
    case JNull => SameTail("null", x, y);
    case JBool(flag) => SameTail(if flag then "true" else "false", x, y);
    case JInt(n) => DecimalDelimits(n, x, b.number, y);
    case JString(s) => QuotedDelimits(s, x, b.text, y);
    case JArray(items) => ArrayDelimits(items, x, b.items, y);
    case JObject(members) => ObjectDelimits(members, x, b.members, y);
  }

  /** An array's text after its opening bracket. */
  function Opened(items: seq<Json>, rest: string): string {
    if items == [] then "]" + rest else Text(items[0], Items(items[1..], rest))
  }

  lemma OpenedLeads(items: seq<Json>, rest: string)
    ensures |Opened(items, rest)| > 0
    ensures items == [] <==> Opened(items, rest)[0] == ']'
  {
    if items != [] {
      TextLeads(items[0], Items(items[1..], rest));
    }
  }

  lemma {:induction false} ArrayDelimits(a: seq<Json>, x: string, b: seq<Json>, y: string)
    requires Text(JArray(a), x) == Text(JArray(b), y)
    ensures a == b && x == y
    decreases a, 1
  {
    SameTail("[", Opened(a, x), Opened(b, y));
    OpenedLeads(a, x);
    OpenedLeads(b, y);
    if a == [] {
      SameTail("]", x, y);
    } else {
      TextDelimits(a[0], Items(a[1..], x), b[0], Items(b[1..], y));
      ItemsDelimit(a[1..], x, b[1..], y);
      assert a == [a[0]] + a[1..] && b == [b[0]] + b[1..];
    }
  }

  lemma ItemsLead(items: seq<Json>, rest: string)
    ensures |Items(items, rest)| > 0 && Stops(Items(items, rest))
    ensures items == [] <==> Items(items, rest)[0] == ']'
  {
  }

  lemma {:induction false} ItemsDelimit(a: seq<Json>, x: string, b: seq<Json>, y: string)
    requires Items(a, x) == Items(b, y)
    ensures a == b && x == y
    decreases a, 0
  {
    ItemsLead(a, x);
    ItemsLead(b, y);
    if a == [] {
      SameTail("]", x, y);
    } else {
      var u, v := Items(a[1..], x), Items(b[1..], y);
      SameTail(",", Text(a[0], u), Text(b[0], v));
      TextDelimits(a[0], u, b[0], v);
      ItemsDelimit(a[1..], x, b[1..], y);
      assert a == [a[0]] + a[1..] && b == [b[0]] + b[1..];
    }
  }

  lemma {:induction false} MemberDelimits(a: Member, x: string, b: Member, y: string)
    requires Stops(x) && Stops(y) && MemberText(a, x) == MemberText(b, y)
    ensures a == b && x == y
    decreases a, 0
  {
    QuotedDelimits(a.key, ":" + Text(a.value, x), b.key, ":" + Text(b.value, y));
    SameTail(":", Text(a.value, x), Text(b.value, y));
    TextDelimits(a.value, x, b.value, y);
  }

  /** An object's text after its opening brace. */
  function OpenedObject(members: seq<Member>, rest: string): string {
    if members == [] then "}" + rest else MemberText(members[0], Members(members[1..], rest))
  }

  lemma {:induction false} ObjectDelimits(a: seq<Member>, x: string, b: seq<Member>, y: string)
    requires Text(JObject(a), x) == Text(JObject(b), y)
    ensures a == b && x == y
    decreases a, 1
  {
    SameTail("{", OpenedObject(a, x), OpenedObject(b, y));
    assert a == [] <==> OpenedObject(a, x)[0] == '}';
    assert b == [] <==> OpenedObject(b, y)[0] == '}';
    if a == [] {
      SameTail("}", x, y);
    } else {
      MembersLead(a[1..], x);
      MembersLead(b[1..], y);
      MemberDelimits(a[0], Members(a[1..], x), b[0], Members(b[1..], y));
      MembersDelimit(a[1..], x, b[1..], y);
      assert a == [a[0]] + a[1..] && b == [b[0]] + b[1..];
    }
  }

  lemma MembersLead(members: seq<Member>, rest: string)
    ensures |Members(members, rest)| > 0 && Stops(Members(members, rest))
    ensures members == [] <==> Members(members, rest)[0] == '}'
  {
  }

  lemma {:induction false} MembersDelimit(a: seq<Member>, x: string, b: seq<Member>, y: string)
    requires Members(a, x) == Members(b, y)
    ensures a == b && x == y
    decreases a, 0
  {
    MembersLead(a, x);
    MembersLead(b, y);
    if a == [] {
      SameTail("}", x, y);
    } else {
      var u, v := Members(a[1..], x), Members(b[1..], y);
      SameTail(",", MemberText(a[0], u), MemberText(b[0], v));
      MembersLead(a[1..], x);
      MembersLead(b[1..], y);
      MemberDelimits(a[0], u, b[0], v);
      MembersDelimit(a[1..], x, b[1..], y);
      assert a == [a[0]] + a[1..] && b == [b[0]] + b[1..];
    }
  }

  // ------------------------------------------------------------------------------------------ UTF-8

  /** One Unicode scalar value as UTF-8. */
  function Utf8Char(c: char): (b: Bytes)
    ensures |b| > 0
  {
    var n := c as nat;
    if n < 0x80 then [n]
    else if n < 0x800 then [0xC0 + n / 0x40, 0x80 + n % 0x40]
    else if n < 0x1_0000 then [0xE0 + n / 0x1000, 0x80 + n / 0x40 % 0x40, 0x80 + n % 0x40]
    else [0xF0 + n / 0x4_0000, 0x80 + n / 0x1000 % 0x40, 0x80 + n / 0x40 % 0x40, 0x80 + n % 0x40]
  }

  function Utf8(s: string): Bytes {
    if s == "" then [] else Utf8Char(s[0]) + Utf8(s[1..])
  }

  lemma Utf8CharDelimits(a: char, x: Bytes, b: char, y: Bytes)
    requires Utf8Char(a) + x == Utf8Char(b) + y
    ensures a == b && x == y
  {
    var s, t := Utf8Char(a), Utf8Char(b);
    assert (s + x)[0] == s[0] && (t + y)[0] == t[0];
    assert |s| == |t|;
    assert s == (s + x)[..|s|] && t == (t + y)[..|t|];
    assert x == (s + x)[|s|..] && y == (t + y)[|t|..];
    Utf8CharInjective(a, b);
  }

  lemma Utf8CharInjective(a: char, b: char)
    requires Utf8Char(a) == Utf8Char(b)
    ensures a == b
  {
    assert Utf8Value(Utf8Char(a)) == a as nat by { Utf8CharValue(a); }
    assert Utf8Value(Utf8Char(b)) == b as nat by { Utf8CharValue(b); }
  }

  /** The scalar value a UTF-8 sequence spells. */
  function Utf8Value(b: Bytes): int
    requires |b| > 0
  {
    var lead: int, tail: int := b[0], b[|b| - 1];
    if |b| == 1 then lead
    else if |b| == 2 then (lead - 0xC0) * 0x40 + tail - 0x80
    else if |b| == 3 then (lead - 0xE0) * 0x1000 + (b[1] as int - 0x80) * 0x40 + tail - 0x80
    else if |b| == 4 then
      (lead - 0xF0) * 0x4_0000 + (b[1] as int - 0x80) * 0x1000 + (b[2] as int - 0x80) * 0x40 + tail - 0x80
    else 0
  }

  lemma Utf8CharValue(c: char)
    ensures Utf8Value(Utf8Char(c)) == c as nat
  {
    var n := c as nat;
    assert n / 0x40 / 0x40 == n / 0x1000 && n / 0x1000 / 0x40 == n / 0x4_0000;
  }

  lemma {:induction false} Utf8Injective(s: string, t: string)
    requires Utf8(s) == Utf8(t)
    ensures s == t
  {
    if s != "" && t != "" {
      Utf8CharDelimits(s[0], Utf8(s[1..]), t[0], Utf8(t[1..]));
      Utf8Injective(s[1..], t[1..]);
      assert s == [s[0]] + s[1..] && t == [t[0]] + t[1..];
    } else {
      assert s != "" ==> |Utf8(s)| > 0;
      assert t != "" ==> |Utf8(t)| > 0;
    }
  }

  /** `canonical_bytes` of a document. */
  function CanonicalBytes(j: Json): Bytes {
    Utf8(Print(j))
  }

  /** Equal canonical bytes mean equal documents, for every document and every string in it. */
  lemma CanonicalBytesInjective(a: Json, b: Json)
    requires CanonicalBytes(a) == CanonicalBytes(b)
    ensures a == b
  {
    Utf8Injective(Print(a), Print(b));
    TextDelimits(a, "", b, "");
  }
}
