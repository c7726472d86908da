/**
 A reader for the printed scan list: a JSON reader for objects of strings with the escapes of
 section 7 of RFC 8259, integers and arrays of two-digit bytes, in the spacing of the dump and
 no looser than JSON, and the proof that it recovers every node exactly when no name needs
 escaping.
 */
module ScanJsonReader {
  import opened Text
  import opened ScanJson

  const TRAILER: string := "]}\n"

  type Parsed<T> = Option<(T, string)>

  /** A character a JSON string may hold unescaped. */
  predicate Plain(c: char) {
    c != '"' && c != '\\' && c >= ' '
  }

  predicate NameOk(name: string) {
    forall i | 0 <= i < |name| :: Plain(name[i])
  }

  /** What follows `prefix`, if the text starts with it. */
  function Expect(prefix: string, s: string): (r: Option<string>)
    ensures r.Some? ==> |r.value| == |s| - |prefix|
  {
    if prefix <= s then Some(s[|prefix|..]) else None
  }

  /** Upper and lower case hexadecimal digits. */
  function AnyHexDigit(c: char): Option<nat> {
    if 'a' <= c <= 'f' then Some(c as int - 'a' as int + 10) else HexDigitValue(c)
  }

  /** The four digits of a \u escape, surrogates excepted. */
  function ReadUnicode(s: string): Option<char>
    requires |s| == 4
  {
    match (AnyHexDigit(s[0]), AnyHexDigit(s[1]), AnyHexDigit(s[2]), AnyHexDigit(s[3]))
    case (Some(a), Some(b), Some(c), Some(d)) =>
      var code := 4096 * a + 256 * b + 16 * c + d;
      if code < 0xD800 || 0xE000 <= code < 0x1_0000 then Some(code as char) else None
    case _ => None
  }

  /** The character a two-character escape stands for. */
  function Unescaped(c: char): Option<char> {
    if c == '"' || c == '\\' || c == '/' then Some(c)
    else if c == 'b' then Some('\U{08}')
    else if c == 'f' then Some('\U{0C}')
    else if c == 'n' then Some('\n')
    else if c == 'r' then Some('\r')
    else if c == 't' then Some('\t')
    else None
  }

  /** One character of a JSON string, and the length of its plain or escaped spelling. */
  function ReadChar(s: string): (r: Option<(char, nat)>)
    requires s != ""
    ensures r.Some? ==> r.value.1 in {1, 2, 6} && r.value.1 <= |s|
    ensures r.Some? && r.value.1 == 1 ==> Plain(s[0]) && r.value.0 == s[0]
    ensures r.Some? && r.value.1 > 1 ==> s[0] == '\\'
    ensures r.Some? && r.value.1 == 2 && s[1] == '"' ==> r.value.0 == '"'
    ensures r.Some? && r.value.1 == 6 ==> s[1] == 'u' && forall i | 2 <= i < 6 :: s[i] != '"'
    ensures Plain(s[0]) ==> r == Some((s[0], 1))
  {
    if Plain(s[0]) then Some((s[0], 1))
    else if s[0] != '\\' || |s| == 1 then None
    else if s[1] == 'u' then
      if |s| < 6 then None
      else
        match ReadUnicode(s[2..6])
        case None => None
        case Some(c) => Some((c, 6))
    else
      match Unescaped(s[1])
      case None => None
      case Some(c) => Some((c, 2))
  }

  /** A string behind its opening quote, up to and including the closing one. */
  function ReadString(s: string): (r: Parsed<string>)
    ensures r.Some? ==> |r.value.1| < |s|
    decreases |s|
  {
    if s == "" then None
    else if s[0] == '"' then Some(("", s[1..]))
    else
      match ReadChar(s)
      case None => None
      case Some(c) =>
        match ReadString(s[c.1..])
        case None => None
        case Some(p) => Some(([c.0] + p.0, p.1))
  }

  /** The items of a byte array up to and including the closing bracket. */
  function ReadItems(s: string): (r: Parsed<seq<byte>>)
    ensures r.Some? ==> |r.value.1| < |s|
  {
    if s != "" && s[0] == ']' then Some(([], s[1..])) else ReadItemList(s)
  }

  /** One item or more, with commas between them. */
  function ReadItemList(s: string): (r: Parsed<seq<byte>>)
    ensures r.Some? ==> |r.value.1| < |s|
    decreases |s|
  {
    if |s| < 5 || s[0] != '"' || s[3] != '"' then None
    else
      match HexValue(s[1], s[2])
      case None => None
      case Some(b) =>
        if s[4] == ']' then Some(([b], s[5..]))
        else if s[4] != ',' then None
        else
          match ReadItemList(s[5..])
          case None => None
          case Some(p) => Some(([b] + p.0, p.1))
  }

  /** A zero in front of another digit, which JSON does not allow. */
  predicate LeadingZero(s: string) {
    var digits := if s != "" && s[0] == '-' then s[1..] else s;
    |digits| > 1 && digits[0] == '0' && IsDigit(digits[1])
  }

  function ReadValue(s: string): (r: Parsed<Value>)
    ensures r.Some? ==> |r.value.1| < |s|
  {
    if s != "" && s[0] == '"' then
      match ReadString(s[1..])
      case None => None
      case Some(p) => Some((Str(p.0), p.1))
    else if s != "" && s[0] == '[' then
      match ReadItems(s[1..])
      case None => None
      case Some(p) => Some((Bytes(p.0), p.1))
    else
      match ParseInt(s)
      case None => None
      case Some(p) => if |p.1| < |s| && !LeadingZero(s) then Some((Number(p.0), p.1)) else None
  }

  predicate FieldsOk(fields: seq<Field>) {
    forall i | 0 <= i < |fields| :: fields[i].value.Str? ==> NameOk(fields[i].value.text)
  }

  function ReadField(s: string): (r: Parsed<Field>)
    ensures r.Some? ==> |r.value.1| < |s|
  {
    if s == "" || s[0] != '"' then None
    else
      match ReadString(s[1..])
      case None => None
      case Some(key) =>
        if key.1 == "" || key.1[0] != ':' then None
        else
          match ReadValue(key.1[1..])
          case None => None
          case Some(v) => Some((Field(key.0, v.0), v.1))
  }

  /** The fields of an object up to and including the closing brace. */
  function ReadFields(s: string): (r: Parsed<seq<Field>>)
    ensures r.Some? ==> |r.value.1| < |s|
    decreases |s|
  {
    match ReadField(s)
    case None => None
    case Some(f) =>
      if f.1 != "" && f.1[0] == '}' then Some(([f.0], f.1[1..]))
      else if f.1 == "" || f.1[0] != ',' then None
      else
        match ReadFields(f.1[1..])
        case None => None
        case Some(p) => Some(([f.0] + p.0, p.1))
  }

  /** A node from its ten fields. */
  function ToNode(f: seq<Field>): Option<Node> {
    if |f| == FIELDS
       && f[0].key == "addr" && f[0].value.Bytes? && f[1].key == "addr_type" && Natural(f[1].value)
       && f[2].key == "name" && f[2].value.Str? && f[3].key == "adv_type" && Natural(f[3].value)
       && f[4].key == "ad_data" && f[4].value.Bytes? && f[5].key == "last_rssi" && f[5].value.Number?
       && f[6].key == "txpwr_dbm" && f[6].value.Number? && f[7].key == "adv_msg_cnt" && Natural(f[7].value)
       && f[8].key == "first_update" && Natural(f[8].value) && f[9].key == "last_update" && Natural(f[9].value)
    then
      Some(Node(Reverse(f[0].value.bytes), f[1].value.number, f[2].value.text, f[3].value.number, f[4].value.bytes,
                f[5].value.number, f[6].value.number, f[7].value.number, f[8].value.number, f[9].value.number))
    else None
  }

  predicate Natural(v: Value) {
    v.Number? && v.number >= 0
  }

  function ReadNode(s: string): (r: Parsed<Node>)
    ensures r.Some? ==> |r.value.1| < |s|
  {
    if s == "" || s[0] != '{' then None
    else
      match ReadFields(s[1..])
      case None => None
      case Some(p) =>
        match ToNode(p.0)
        case None => None
        case Some(n) => Some((n, p.1))
  }

  /** The nodes up to the end of the text. */
  function ReadNodes(s: string): Option<seq<Node>> {
    if s == TRAILER then Some([]) else ReadNodeList(s)
  }

  /** One node or more, with a comma and a space between them. */
  function ReadNodeList(s: string): Option<seq<Node>>
    decreases |s|
  {
    match ReadNode(s)
    case None => None
    case Some(first) =>
      var rest := first.1;
      if rest == TRAILER then Some([first.0])
      else if |rest| < 2 || rest[0] != ',' || rest[1] != ' ' then None
      else
        match ReadNodeList(rest[2..])
        case None => None
        case Some(nodes) => Some([first.0] + nodes)
  }

  function ReadList(s: string): Option<seq<Node>> {
    match Expect("{\"nodes\": [", s)
    case None => None
    case Some(rest) => ReadNodes(rest)
  }

  predicate NamesOk(nodes: seq<Node>) {
    forall i | 0 <= i < |nodes| :: NameOk(nodes[i].name)
  }

  // ----- what was printed is read back -----

  lemma {:induction false} StringReadBack(text: string, rest: string)
    requires NameOk(text)
    ensures ReadString(text + ("\"" + rest)) == Some((text, rest))
  {
    var s := text + ("\"" + rest);
    if text == "" {
      assert s[0] == '"' && s[1..] == rest;
    } else {
      StringReadBack(text[1..], rest);
      assert s[0] == text[0] && s[1..] == text[1..] + ("\"" + rest);
      assert [text[0]] + text[1..] == text;
    }
  }

  lemma ItemsReadBack(bytes: seq<byte>, rest: string)
    ensures ReadItems(ItemsText(bytes) + rest) == Some((bytes, rest))
  {
    var s := ItemsText(bytes) + rest;
    if bytes == [] {
      assert s[0] == ']' && s[1..] == rest;
    } else {
      ItemListReadBack(bytes, rest);
      ItemSplit(bytes, rest);
    }
  }

  lemma {:induction false} ItemListReadBack(bytes: seq<byte>, rest: string)
    requires bytes != []
    ensures ReadItemList(ItemsText(bytes) + rest) == Some((bytes, rest))
  {
    HexRoundTrip(bytes[0]);
    ItemSplit(bytes, rest);
    assert [bytes[0]] + bytes[1..] == bytes;
    if |bytes| > 1 {
      ItemListReadBack(bytes[1..], rest);
    } else {
      assert bytes == [bytes[0]];
    }
  }

  lemma ItemSplit(bytes: seq<byte>, rest: string)
    requires bytes != []
    ensures var s, h, tail := ItemsText(bytes) + rest, Hex(bytes[0]), ItemsText(bytes[1..]) + rest;
            && |s| >= 5 && s[0] == '"' && s[1] == h[0] && s[2] == h[1] && s[3] == '"'
            && (if |bytes| > 1 then s[4] == ',' && s[5..] == tail else s[4] == ']' && s[4..] == tail && s[5..] == rest)
  {
    var quoted, later := "\"" + Hex(bytes[0]) + "\"", ItemsText(bytes[1..]);
    if |bytes| > 1 {
      Separated(quoted, ",", later, rest);
      Ahead(quoted, "," + (later + rest));
      Ahead(",", later + rest);
    } else {
      Separated(quoted, "", later, rest);
      Ahead(quoted, later + rest);
      assert later == "]";
      Ahead(later, rest);
      Ahead(quoted + later, rest);
    }
  }

  lemma Separated(first: string, separator: string, later: string, rest: string)
    ensures ((first + separator) + later) + rest == first + (separator + (later + rest))
    ensures separator == "" ==> separator + (later + rest) == later + rest
  {
  }

  lemma Ahead(first: string, later: string)
    ensures |first + later| == |first| + |later| && (first + later)[|first|..] == later
    ensures forall i | 0 <= i < |first| :: (first + later)[i] == first[i]
  {
  }

  lemma NumberReadBack(number: int, rest: string)
    requires NoDigitAhead(rest)
    ensures ReadValue(Signed(number) + rest) == Some((Number(number), rest))
  {
    var s := Signed(number) + rest;
    ParseSigned(number, rest);
    assert s[0] == Signed(number)[0];
    assert s[0] == '-' || IsDigit(s[0]);
    NoZeroLeads(number, rest);
  }

  lemma NoZeroLeads(number: int, rest: string)
    requires NoDigitAhead(rest)
    ensures !LeadingZero(Signed(number) + rest)
  {
    hide Decimal;
    var n := if number < 0 then -number else number;
    var d := Decimal(n);
    NoLeadingZero(n);
    Ahead(d, rest);
    if number < 0 {
      Moved("-", d, rest);
      Ahead("-", d + rest);
    }
    assert IsDigit(d[0]);
    assert |d| == 1 && rest != "" ==> (d + rest)[1] == rest[0];
  }

  lemma {:induction false} NoLeadingZero(n: nat)
    ensures |Decimal(n)| > 1 ==> Decimal(n)[0] != '0'
    ensures n > 0 ==> Decimal(n)[0] != '0'
  {
    if n >= 10 {
      NoLeadingZero(n / 10);
    }
  }

  lemma StrReadBack(text: string, rest: string)
    requires NameOk(text)
    ensures ReadValue(ValueText(Str(text)) + rest) == Some((Str(text), rest))
  {
    StringReadBack(text, rest);
    assert (("\"" + text) + "\"") + rest == "\"" + (text + ("\"" + rest));
    Ahead("\"", text + ("\"" + rest));
  }

  lemma BytesReadBack(bytes: seq<byte>, rest: string)
    ensures ReadValue(ValueText(Bytes(bytes)) + rest) == Some((Bytes(bytes), rest))
  {
    ItemsReadBack(bytes, rest);
    Moved("[", ItemsText(bytes), rest);
    Ahead("[", ItemsText(bytes) + rest);
  }

  lemma ValueReadBack(v: Value, rest: string)
    requires v.Str? ==> NameOk(v.text)
    requires NoDigitAhead(rest)
    ensures ReadValue(ValueText(v) + rest) == Some((v, rest))
  {
    match v {
      case Str(text) => StrReadBack(text, rest);
      case Bytes(bytes) => BytesReadBack(bytes, rest);
      case Number(number) => NumberReadBack(number, rest);
    }
  }

  lemma FieldReadBack(f: Field, rest: string)
    requires NameOk(f.key) && (f.value.Str? ==> NameOk(f.value.text))
    requires NoDigitAhead(rest)
    ensures ReadField(KeyText(f.key) + ValueText(f.value) + rest) == Some((f, rest))
  {
    hide ValueText, ReadValue, ReadString, NameOk;
    KeyRead(f.key, ValueText(f.value), rest);
    ValueReadBack(f.value, rest);
  }

  /** Reading a field goes on to read its value. */
  lemma KeyRead(key: string, value: string, rest: string)
    requires NameOk(key)
    ensures ReadField(KeyText(key) + value + rest)
         == match ReadValue(value + rest) case None => None case Some(v) => Some((Field(key, v.0), v.1))
  {
    hide ReadValue, ReadString;
    var behind := ":" + (value + rest);
    StringReadBack(key, behind);
    KeyTextSplit(key, value, rest);
    Ahead("\"", key + ("\"" + behind));
    Ahead(":", value + rest);
  }

  lemma KeyTextSplit(key: string, value: string, rest: string)
    ensures KeyText(key) + value + rest == "\"" + (key + ("\"" + (":" + (value + rest))))
  {
    assert KeyText(key) == "\"" + (key + ("\"" + ":"));
  }

  /** The text of field i and what follows, without the comma that leads to it. */
  function FromField(f: seq<Field>, i: nat, rest: string): string
    requires i < |f|
  {
    KeyText(f[i].key) + ValueText(f[i].value) + (FieldsText(f, i + 1) + rest)
  }

  lemma FromFieldLed(f: seq<Field>, i: nat, rest: string)
    requires i < |f|
    ensures FieldsText(f, i) + rest == (if i > 0 then "," else "") + FromField(f, i, rest)
  {
    Reassociated(if i > 0 then "," else "", KeyText(f[i].key), ValueText(f[i].value), FieldsText(f, i + 1), rest);
  }

  lemma Reassociated(a: string, b: string, c: string, d: string, e: string)
    ensures (((a + b) + c) + d) + e == a + ((b + c) + (d + e))
  {
  }

  predicate KeysOk(f: seq<Field>) {
    forall i | 0 <= i < |f| :: NameOk(f[i].key)
  }

  lemma {:induction false} FieldsReadBack(f: seq<Field>, i: nat, rest: string)
    requires i < |f| && FieldsOk(f[i..]) && KeysOk(f[i..])
    ensures ReadFields(FromField(f, i, rest)) == Some((f[i..], rest))
    decreases |f| - i
  {
    var behind := FieldsText(f, i + 1) + rest;
    if i + 1 == |f| {
      assert behind[0] == '}' && behind[1..] == rest;
      FieldReadBack(f[i], behind);
      assert [f[i]] == f[i..];
    } else {
      FromFieldLed(f, i + 1, rest);
      assert behind[0] == ',' && behind[1..] == FromField(f, i + 1, rest);
      FieldReadBack(f[i], behind);
      FieldsReadBack(f, i + 1, rest);
      FirstAndRest(f, i);
    }
  }

  lemma {:induction false} ReverseTwice(b: seq<byte>)
    ensures Reverse(Reverse(b)) == b
  {
    forall i: nat | i < |b|
      ensures Reverse(Reverse(b))[i] == b[i]
    {
      ReverseAt(Reverse(b), i);
      ReverseAt(b, |b| - 1 - i);
    }
  }

  lemma NodeFromFields(n: Node)
    ensures ToNode(FieldsOf(n)) == Some(n)
  {
    ReverseTwice(n.addr);
  }

  lemma KeysPlain()
    ensures NameOk("addr") && NameOk("addr_type") && NameOk("name") && NameOk("adv_type") && NameOk("ad_data")
  {
  }

  lemma MoreKeysPlain()
    ensures NameOk("last_rssi") && NameOk("txpwr_dbm") && NameOk("adv_msg_cnt")
    ensures NameOk("first_update") && NameOk("last_update")
  {
  }

  lemma FieldNamesOk(n: Node)
    requires NameOk(n.name)
    ensures KeysOk(FieldsOf(n)) && FieldsOk(FieldsOf(n))
  {
    KeysPlain();
    MoreKeysPlain();
  }

  lemma NodeReadBack(n: Node, rest: string)
    requires NameOk(n.name)
    ensures ReadNode(NodeText(n) + rest) == Some((n, rest))
  {
    FieldNamesOk(n);
    NodeFromFields(n);
    BracedReadBack(FieldsOf(n), rest);
  }

  lemma BracedReadBack(f: seq<Field>, rest: string)
    requires f != [] && FieldsOk(f) && KeysOk(f)
    ensures var s := "{" + FieldsText(f, 0) + rest;
            s[0] == '{' && ReadFields(s[1..]) == Some((f, rest))
  {
    ObjectReadBack(f, rest);
    Moved("{", FieldsText(f, 0), rest);
    Ahead("{", FieldsText(f, 0) + rest);
  }

  lemma ObjectReadBack(f: seq<Field>, rest: string)
    requires f != [] && FieldsOk(f) && KeysOk(f)
    ensures ReadFields(FieldsText(f, 0) + rest) == Some((f, rest))
  {
    FieldsReadBack(f, 0, rest);
    FromFieldLed(f, 0, rest);
    assert "" + FromField(f, 0, rest) == FromField(f, 0, rest);
    assert f[0..] == f;
  }

  /** One node, what separates it from the next, and the rest of the list. */
  lemma NodeThenList(s: string, n: Node, separator: string, tail: string)
    requires s != "" && s[0] == '{' && ReadNode(s) == Some((n, separator + tail))
    requires (separator == ", " && tail != "" && tail[0] == '{') || (separator == "" && tail == TRAILER)
    ensures ReadNodes(s) == match ReadNodes(tail) case None => None case Some(nodes) => Some([n] + nodes)
  {
    hide ReadNode;
    if separator == ", " {
      Ahead(", ", tail);
    } else {
      assert separator + tail == tail;
      assert [n] + [] == [n];
    }
  }

  /** A text that reads as the given node whatever comes behind it. */
  ghost predicate ReadsAs(t: string, n: Node) {
    t != "" && t[0] == '{' && forall rest :: ReadNode(t + rest) == Some((n, rest))
  }

  lemma NodeTextReads(n: Node)
    requires NameOk(n.name)
    ensures ReadsAs(NodeText(n), n)
  {
    hide ReadNode, NameOk;
    forall rest
      ensures ReadNode(NodeText(n) + rest) == Some((n, rest))
    {
      NodeReadBack(n, rest);
    }
  }

  lemma FirstAndRest<T>(s: seq<T>, i: nat)
    requires i < |s|
    ensures [s[i]] + s[i + 1..] == s[i..]
  {
  }

  lemma NodeAhead(t: string, n: Node, separator: string, tail: string)
    requires ReadsAs(t, n)
    ensures var s := t + separator + tail;
            s != "" && s[0] == '{' && ReadNode(s) == Some((n, separator + tail))
  {
    hide ReadNode;
    Moved(t, separator, tail);
    Ahead(t, separator + tail);
  }

  lemma JoinedOpens(t: seq<string>, i: nat)
    requires i < |t| && t[i] != "" && t[i][0] == '{'
    ensures var s := JoinedText(t, i); s != "" && s[0] == '{'
  {
    var separator, tail := if i + 1 < |t| then ", " else "", JoinedText(t, i + 1);
    Moved(t[i], separator, tail);
    Ahead(t[i], separator + tail);
  }

  /** Reading a list from a node on goes on to read it from the next one on. */
  lemma ListStep(t: seq<string>, n: Node, i: nat)
    requires i < |t| && ReadsAs(t[i], n)
    requires forall k | 0 <= k < |t| :: t[k] != "" && t[k][0] == '{'
    ensures ReadNodes(JoinedText(t, i))
         == match ReadNodes(JoinedText(t, i + 1)) case None => None case Some(nodes) => Some([n] + nodes)
  {
    hide ReadNode, ReadNodes, ReadsAs;
    var separator, tail := if i + 1 < |t| then ", " else "", JoinedText(t, i + 1);
    NodeAhead(t[i], n, separator, tail);
    if i + 1 < |t| {
      JoinedOpens(t, i + 1);
    }
    NodeThenList(JoinedText(t, i), n, separator, tail);
  }

  lemma {:induction false} NodesReadBack(t: seq<string>, nodes: seq<Node>, i: nat)
    requires i <= |nodes| == |t| && forall k | 0 <= k < |t| :: ReadsAs(t[k], nodes[k])
    ensures ReadNodes(JoinedText(t, i)) == Some(nodes[i..])
    decreases |nodes| - i
  {
    hide ReadNode;
    if i < |nodes| {
      NodesReadBack(t, nodes, i + 1);
      ListStep(t, nodes[i], i);
      FirstAndRest(nodes, i);
    } else {
      assert nodes[i..] == [];
    }
  }

  // ----- and nothing else is -----

  /** What follows the text of a name: its closing quote and the next key. */
  predicate Closes(tail: string) {
    |tail| >= 3 && tail[0] == '"' && tail[1] == ',' && tail[2] == '"'
  }

  /** An escape that takes in the closing quote ends the string behind the comma. */
  lemma EscapedQuote(t: string, tail: string)
    requires Closes(tail) && t != "" && t[0] == '\\'
    requires ReadChar(t + tail).Some? && ReadChar(t + tail).value.1 > |t|
    ensures t == "\\" && ReadString(t + tail) == Some(("\",", tail[3..]))
  {
    var s := t + tail;
    var length := ReadChar(s).value.1;
    assert s[|t|] == '"';
    assert length == 2;
    assert s[2..] == tail[1..] && tail[1..][0] == ',';
    assert tail[1..][1..] == tail[2..] && tail[2..][0] == '"' && tail[2..][1..] == tail[3..];
    assert ReadString(tail[2..]) == Some(("", tail[3..]));
    assert ReadString(tail[1..]) == Some(([','] + "", tail[3..]));
    assert [s[1]] + ([','] + "") == "\",";
  }

  /**
   A reader that has fallen behind by some text, because it has decoded an escape, never
   catches up: reading t it cannot produce a longer text that ends in t.
   */
  lemma {:induction false} NeverCatchesUp(t: string, behind: string, tail: string)
    requires behind != "" && Closes(tail)
    ensures var r := ReadString(t + tail); r.Some? ==> r.value.0 != behind + t
    decreases |t|
  {
    var s := t + tail;
    if t == "" || t[0] == '"' {
      assert s[0] == '"';
      assert behind + t != "";
    } else {
      assert s[0] == t[0];
      var c := ReadChar(s);
      if c.Some? {
        if c.value.1 > |t| {
          EscapedQuote(t, tail);
          assert (behind + t)[|behind + t| - 1] == '\\';
        } else {
          Behind(t, behind, c.value.1, tail);
          NeverCatchesUp(t[c.value.1..], behind[1..] + t[..c.value.1], tail);
        }
      }
    }
  }

  lemma Behind(t: string, behind: string, n: nat, tail: string)
    requires 0 < n <= |t| && behind != ""
    ensures (t + tail)[n..] == t[n..] + tail
    ensures (behind + t)[1..] == (behind[1..] + t[..n]) + t[n..]
    ensures behind[1..] + t[..n] != ""
    ensures forall c: char, r: string | [c] + r == behind + t :: r == (behind + t)[1..]
  {
    forall c: char, r: string | [c] + r == behind + t
      ensures r == (behind + t)[1..]
    {
      assert ([c] + r)[1..] == r;
    }
  }

  lemma Parts(t: string, n: nat, tail: string)
    requires 0 < n <= |t|
    ensures (t + tail)[n..] == t[n..] + tail && t[1..] == t[1..n] + t[n..]
  {
  }

  lemma NoEscape(t: string, tail: string)
    requires t != "" && Closes(tail) && ReadString(t + tail).Some? && ReadString(t + tail).value.0 == t
    ensures ReadChar(t + tail).Some? && ReadChar(t + tail).value.1 == 1
    ensures (t + tail)[1..] == t[1..] + tail
    ensures ReadString(t[1..] + tail).Some? && ReadString(t[1..] + tail).value.0 == t[1..]
  {
    hide ReadChar, Closes;
    var s := t + tail;
    assert s[0] == t[0];
    var n := ReadChar(s).value.1;
    if n > |t| {
      EscapedQuote(t, tail);
    } else {
      var read := ReadString(s[n..]).value.0;
      Ahead([ReadChar(s).value.0], read);
      Parts(t, n, tail);
      if n > 1 {
        NeverCatchesUp(t[n..], t[1..n], tail);
      }
    }
  }

  /** So a name that is read back from its own characters needed no escaping. */
  lemma {:induction false} OnlyPlainText(t: string, tail: string)
    requires Closes(tail) && ReadString(t + tail).Some? && ReadString(t + tail).value.0 == t
    ensures NameOk(t)
    decreases |t|
  {
    if t != "" {
      NoEscape(t, tail);
      assert (t + tail)[0] == t[0];
      OnlyPlainText(t[1..], tail);
      assert t == [t[0]] + t[1..];
    }
  }

  /** Reading an object from field i on goes on to read it from the next one on. */
  lemma FieldThenRest(f: seq<Field>, i: nat, rest: string)
    requires i + 1 < |f| && NameOk(f[i].key) && (f[i].value.Str? ==> NameOk(f[i].value.text))
    ensures ReadFields(FromField(f, i, rest))
         == match ReadFields(FromField(f, i + 1, rest)) case None => None case Some(p) => Some(([f[i]] + p.0, p.1))
  {
    hide ReadField, NameOk;
    var behind := FieldsText(f, i + 1) + rest;
    FromFieldLed(f, i + 1, rest);
    Ahead(",", FromField(f, i + 1, rest));
    FieldReadBack(f[i], behind);
  }

  /** What is read of a string field is what is read of its characters. */
  lemma StringFieldRead(f: seq<Field>, i: nat, rest: string)
    requires 0 < i + 1 < |f| && NameOk(f[i].key) && f[i].value.Str?
    ensures var tail := "\"" + (FieldsText(f, i + 1) + rest);
            var r, text := ReadFields(FromField(f, i, rest)), ReadString(f[i].value.text + tail);
            Closes(tail) && (r.Some? ==> r.value.0 != [] && text.Some? && r.value.0[0].value == Str(text.value.0))
  {
    hide NameOk, ReadString;
    var text, behind := f[i].value.text, FieldsText(f, i + 1) + rest;
    KeyRead(f[i].key, ValueText(f[i].value), behind);
    StrLed(text, behind);
    TailCloses(f, i + 1, rest);
  }

  lemma StrLed(text: string, behind: string)
    ensures var s := ValueText(Str(text)) + behind;
            s != "" && s[0] == '"' && s[1..] == text + ("\"" + behind)
  {
    assert (("\"" + text) + "\"") + behind == "\"" + (text + ("\"" + behind));
    Ahead("\"", text + ("\"" + behind));
  }

  lemma TailCloses(f: seq<Field>, i: nat, rest: string)
    requires 0 < i < |f|
    ensures Closes("\"" + (FieldsText(f, i) + rest))
  {
    FromFieldLed(f, i, rest);
    assert KeyText(f[i].key)[0] == '"';
    assert FromField(f, i, rest)[0] == '"';
  }

  /** A node that is read back had a name that needs no escaping. */
  lemma NameWasPlain(n: Node, rest: string)
    requires ReadNode(NodeText(n) + rest).Some? && ReadNode(NodeText(n) + rest).value.0 == n
    ensures NameOk(n.name)
  {
    hide ReadFields, FieldsText, ReadString, NameOk, FromField;
    var f := FieldsOf(n);
    KeysPlain();
    ObjectLed(f, rest);
    FieldThenRest(f, 0, rest);
    FieldThenRest(f, 1, rest);
    StringFieldRead(f, 2, rest);
    OnlyPlainText(n.name, "\"" + (FieldsText(f, 3) + rest));
  }

  lemma ObjectLed(f: seq<Field>, rest: string)
    requires f != []
    ensures var s := "{" + FieldsText(f, 0) + rest;
            s != "" && s[0] == '{' && s[1..] == FromField(f, 0, rest)
  {
    FromFieldLed(f, 0, rest);
    assert "" + FromField(f, 0, rest) == FromField(f, 0, rest);
    Moved("{", FieldsText(f, 0), rest);
    Ahead("{", FieldsText(f, 0) + rest);
  }

  lemma {:induction false} NamesWerePlain(nodes: seq<Node>, i: nat)
    requires i <= |nodes| && ReadNodes(JoinedText(TextsOf(nodes), i)) == Some(nodes[i..])
    ensures forall k | i <= k < |nodes| :: NameOk(nodes[k].name)
    decreases |nodes| - i
  {
    hide ReadNode, NodeText, NameOk, ReadNodes, ReadsAs;
    if i < |nodes| {
      FirstWasPlain(nodes, i);
      NodeTextReads(nodes[i]);
      StartsOpen(nodes);
      ListStep(TextsOf(nodes), nodes[i], i);
      FirstAndRest(nodes, i);
      SameRest(nodes[i], ReadNodes(JoinedText(TextsOf(nodes), i + 1)).value, nodes[i + 1..]);
      NamesWerePlain(nodes, i + 1);
    }
  }

  lemma SameRest<T>(first: T, a: seq<T>, b: seq<T>)
    requires [first] + a == [first] + b
    ensures a == b
  {
    assert ([first] + a)[1..] == a && ([first] + b)[1..] == b;
  }

  lemma StartsOpen(nodes: seq<Node>)
    ensures forall k | 0 <= k < |nodes| :: TextsOf(nodes)[k] != "" && TextsOf(nodes)[k][0] == '{'
  {
    hide FieldsText, FieldsOf;
  }

  lemma FirstWasPlain(nodes: seq<Node>, i: nat)
    requires i < |nodes| && ReadNodes(JoinedText(TextsOf(nodes), i)) == Some(nodes[i..])
    ensures NameOk(nodes[i].name)
  {
    hide ReadNode, NodeText, NameOk;
    var t := TextsOf(nodes);
    var rest := (if i + 1 < |t| then ", " else "") + JoinedText(t, i + 1);
    StartsOpen(nodes);
    Moved(t[i], if i + 1 < |t| then ", " else "", JoinedText(t, i + 1));
    assert JoinedText(t, i) == NodeText(nodes[i]) + rest;
    Ahead(NodeText(nodes[i]), rest);
    assert JoinedText(t, i)[0] == '{';
    NameWasPlain(nodes[i], rest);
  }

  /** A printed list reads back as the very same nodes exactly when every name needs no escaping. */
  lemma ReadableExactly(nodes: seq<Node>)
    ensures ReadList(ListText(nodes)) == Some(nodes) <==> NamesOk(nodes)
  {
    hide ReadNodes, NodeText, NameOk, JoinedText;
    Ahead(HEADER, JoinedText(TextsOf(nodes), 0));
    assert nodes[0..] == nodes;
    if NamesOk(nodes) {
      forall i | 0 <= i < |nodes|
        ensures ReadsAs(TextsOf(nodes)[i], nodes[i])
      {
        NodeTextReads(nodes[i]);
      }
      NodesReadBack(TextsOf(nodes), nodes, 0);
    }
    if ReadList(ListText(nodes)) == Some(nodes) {
      NamesWerePlain(nodes, 0);
    }
  }

  // ----- entries of the scan list -----

  /**
   The node says of the entry what the dump is for: every field, the complete name or else the short one
   or else "undefined", and the transmit power as a signed byte, 127 without one.
   */
  ghost predicate Shows(n: Node, e: Entry) {
    && n.addr == e.addr && n.addrType == e.addrType && n.advType == e.advType && n.adData == e.ad
    && n.lastRssi == e.lastRssi && n.advMsgCnt == e.advMsgCnt
    && n.firstUpdate == e.firstUpdate && n.lastUpdate == e.lastUpdate
    && (e.completeName.Some? ==> n.name == e.completeName.value)
    && (e.completeName.None? && e.shortName.Some? ==> n.name == e.shortName.value)
    && (e.completeName.None? && e.shortName.None? ==> n.name == "undefined")
    && -128 <= n.txPower <= 127
    && (e.txPower.Some? ==> (n.txPower - e.txPower.value) % 256 == 0)
    && (e.txPower.None? ==> n.txPower == 127)
  }

  /** No shown name holds a quote, a backslash or a control character. */
  ghost predicate ShownPlainly(e: Entry) {
    && (e.completeName.Some? ==> NameOk(e.completeName.value))
    && (e.completeName.None? && e.shortName.Some? ==> NameOk(e.shortName.value))
  }

  ghost predicate AllShown(nodes: seq<Node>, list: seq<Entry>) {
    |nodes| == |list| && forall i | 0 <= i < |list| :: Shows(nodes[i], list[i])
  }

  lemma ShowsExactly(n: Node, e: Entry)
    ensures Shows(n, e) <==> n == NodeOf(e)
    ensures NameOk(NodeOf(e).name) <==> ShownPlainly(e)
  {
    if e.txPower.Some? {
      SignedByte(n.txPower, e.txPower.value);
    }
    assert NameOk("undefined");
  }

  lemma SignedByte(p: int, b: byte)
    ensures -128 <= p <= 127 && (p - b) % 256 == 0 <==> p == if b < 128 then b else b - 256
  {
  }

  lemma AllShownExactly(nodes: seq<Node>, list: seq<Entry>)
    ensures AllShown(nodes, list) <==> nodes == NodesOf(list)
    ensures NamesOk(NodesOf(list)) <==> forall i | 0 <= i < |list| :: ShownPlainly(list[i])
  {
    hide NodeOf, Shows, ShownPlainly, NameOk;
    forall i | 0 <= i < |list|
      ensures NameOk(NodesOf(list)[i].name) <==> ShownPlainly(list[i])
      ensures |nodes| == |list| ==> (Shows(nodes[i], list[i]) <==> nodes[i] == NodesOf(list)[i])
    {
      ShowsExactly(if |nodes| == |list| then nodes[i] else NodesOf(list)[i], list[i]);
    }
  }

  /** What is read of a printed list shows its entries, one by one, exactly when every shown name is plain. */
  lemma EntriesReadBack(list: seq<Entry>)
    ensures var read := ReadList(ListText(NodesOf(list)));
            read.Some? && AllShown(read.value, list) <==> forall i | 0 <= i < |list| :: ShownPlainly(list[i])
  {
    hide NodeOf, ReadList, ListText, AllShown, ShownPlainly, NamesOk;
    ReadableExactly(NodesOf(list));
    var read := ReadList(ListText(NodesOf(list)));
    AllShownExactly(if read.Some? then read.value else [], list);
  }

  /** For example, a node whose name is a quote does not read back. */
  lemma QuoteIsUnreadable(n: Node)
    requires n.name == "\""
    ensures ReadList(ListText([n])) != Some([n])
  {
    assert !Plain(n.name[0]);
    assert [n][0] == n;
    ReadableExactly([n]);
  }

  /** A name of two backslashes is taken for an escape: the node reads back with one. */
  lemma BackslashIsLost(n: Node, rest: string)
    requires n.name == "\\\\"
    ensures ReadNode(NodeText(n) + rest) == Some((n.(name := "\\"), rest))
  {
    hide FieldsText, ReadFields, FromField, NameOk;
    var f, read := FieldsOf(n), n.(name := "\\");
    ObjectLed(f, rest);
    NameOnly(n);
    BackslashField(f, rest);
    assert f[2 := Field("name", Str("\\"))] == FieldsOf(read);
    NodeFromFields(read);
  }

  lemma NameOnly(n: Node)
    ensures KeysOk(FieldsOf(n)) && forall i | 0 <= i < FIELDS && i != 2 :: !FieldsOf(n)[i].value.Str?
  {
    KeysPlain();
    MoreKeysPlain();
  }

  lemma BackslashField(f: seq<Field>, rest: string)
    requires |f| == FIELDS && f[2] == Field("name", Str("\\\\"))
    requires KeysOk(f) && forall i | 0 <= i < FIELDS && i != 2 :: !f[i].value.Str?
    ensures ReadFields(FromField(f, 0, rest)) == Some((f[2 := Field("name", Str("\\"))], rest))
  {
    hide FieldsText, NameOk, FromField, ReadFields;
    var behind := FieldsText(f, 3) + rest;
    FieldThenRest(f, 0, rest);
    FieldThenRest(f, 1, rest);
    TailCloses(f, 3, rest);
    TwoBackslashes("\"" + behind);
    Ahead("\"", behind);
    NameThenRest(f, 2, "\\", rest);
    LaterFields(f, rest);
    ThreeAndRest(f, Field("name", Str("\\")));
  }

  lemma ThreeAndRest<T>(f: seq<T>, x: T)
    requires |f| > 2
    ensures [f[0]] + ([f[1]] + ([x] + f[3..])) == f[2 := x]
  {
  }

  lemma TwoBackslashes(tail: string)
    requires Closes(tail)
    ensures ReadString("\\\\" + tail) == Some(("\\", tail[1..]))
  {
    var s := "\\\\" + tail;
    assert s[0] == '\\' && s[1] == '\\' && s[2..] == tail;
    assert ReadChar(s) == Some(('\\', 2));
    assert ReadString(tail) == Some(("", tail[1..]));
    assert ['\\'] + "" == "\\";
  }

  /** A string field whose characters read as `text` up to their own closing quote is a field of that text. */
  lemma NameThenRest(f: seq<Field>, i: nat, text: string, rest: string)
    requires i + 1 < |f| && NameOk(f[i].key) && f[i].value.Str?
    requires var behind := FieldsText(f, i + 1) + rest;
             ReadString(f[i].value.text + ("\"" + behind)) == Some((text, behind))
    ensures ReadFields(FromField(f, i, rest))
         == match ReadFields(FromField(f, i + 1, rest))
            case None => None
            case Some(p) => Some(([Field(f[i].key, Str(text))] + p.0, p.1))
  {
    hide NameOk, ReadString;
    var behind := FieldsText(f, i + 1) + rest;
    KeyRead(f[i].key, ValueText(f[i].value), behind);
    StrLed(f[i].value.text, behind);
    FromFieldLed(f, i + 1, rest);
    Ahead(",", FromField(f, i + 1, rest));
  }

  lemma LaterFields(f: seq<Field>, rest: string)
    requires |f| == FIELDS && KeysOk(f[3..]) && FieldsOk(f[3..])
    ensures ReadFields(FromField(f, 3, rest)) == Some((f[3..], rest))
  {
    FieldsReadBack(f, 3, rest);
  }
}
