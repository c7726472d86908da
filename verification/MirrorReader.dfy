/**
 A reader for the text of the mirror resource, written from its line formats: a name, a value and a
 line end for each option in a fixed order, and the payload behind them. It gets the message back
 exactly when no string ends its own line or is cut at a NUL, and the payload does not begin like the
 line of an option that could still come.
 */
module MirrorReader {
  import opened Text
  import opened Mirror

  /** The value on a line; Absent if the option has none. */
  datatype Item =
    | Absent
    | Number(n: nat)
    | Words(text: string)
    | Opaque(bytes: seq<byte>)
    | Blockwise(block: BlockOption)

  datatype Kind = NumberKind | WordsKind | OpaqueKind | BlockKind

  const NAMES: seq<string> :=
    ["CF ", "Ac ", "MA ", "SZ ", "UH ", "UP ", "UQ ", "LP ", "LQ ", "To 0x", "Ob ", "ET 0x", "B2 ", "B1 "]

  const LINES: nat := 14

  function KindOf(i: nat): Kind {
    if i < 4 || i == 10 then NumberKind
    else if i < 9 then WordsKind
    else if i < 12 then OpaqueKind
    else BlockKind
  }

  // ----- the reader -----

  /** Everything up to the first line end, and what follows it. */
  function ReadLine(s: string): Option<(string, string)> {
    if s == "" then None
    else if s[0] == '\n' then Some(("", s[1..]))
    else
      match ReadLine(s[1..])
      case None => None
      case Some(p) => Some(([s[0]] + p.0, p.1))
  }

  /** A number, a plus if more blocks follow, and the size in brackets behind a space. */
  function ReadBlock(s: string): Option<BlockOption> {
    match ParseNat(s)
    case None => None
    case Some(num) =>
      var more := num.1 != "" && num.1[0] == '+';
      match ReadSize(if more then num.1[1..] else num.1)
      case None => None
      case Some(size) => Some(BlockOption(num.0, more, size))
  }

  function ReadSize(s: string): Option<nat> {
    if |s| < 2 || s[0] != ' ' || s[1] != '(' then None
    else
      match ParseNat(s[2..])
      case None => None
      case Some(p) => if p.1 == ")" then Some(p.0) else None
  }

  /** The value of a line; strings and tokens are never empty. */
  function ReadValue(i: nat, line: string): Option<Item> {
    match KindOf(i)
    case NumberKind =>
      (match ParseNat(line)
       case None => None
       case Some(p) => if p.1 == "" then Some(Number(p.0)) else None)
    case WordsKind => if line == "" then None else Some(Words(line))
    case OpaqueKind =>
      (match HexDecode(line)
       case None => None
       case Some(bytes) => if i == 9 && bytes == [] then None else Some(Opaque(bytes)))
    case BlockKind =>
      match ReadBlock(line)
      case None => None
      case Some(block) => Some(Blockwise(block))
  }

  /** The i-th option: its line if the text goes on with its name, else nothing. */
  function ReadItem(i: nat, s: string): Option<(Item, string)>
    requires i < LINES
  {
    if !(NAMES[i] <= s) then Some((Absent, s))
    else
      match ReadLine(s[|NAMES[i]|..])
      case None => None
      case Some(line) =>
        match ReadValue(i, line.0)
        case None => None
        case Some(item) => Some((item, line.1))
  }

  /** The options from the i-th on, and the payload. */
  function ReadItems(i: nat, s: string): Option<(seq<Item>, string)>
    requires i <= LINES
    decreases LINES - i
  {
    if i == LINES then Some(([], s))
    else
      match ReadItem(i, s)
      case None => None
      case Some(first) =>
        match ReadItems(i + 1, first.1)
        case None => None
        case Some(p) => Some(([first.0] + p.0, p.1))
  }

  function NumberIn(item: Item): Option<nat> {
    if item.Number? then Some(item.n) else None
  }

  function WordsIn(item: Item): string {
    if item.Words? then item.text else ""
  }

  function OpaqueIn(item: Item): Option<seq<byte>> {
    if item.Opaque? then Some(item.bytes) else None
  }

  function TokenIn(item: Item): seq<byte> {
    if item.Opaque? then item.bytes else []
  }

  function BlockIn(item: Item): Option<BlockOption> {
    if item.Blockwise? then Some(item.block) else None
  }

  /** Content-Format, Accept, Max-Age, Size1, the five strings, token, Observe, ETag, Block2, Block1 and payload. */
  function MessageOf(items: seq<Item>, payload: string): Message
    requires |items| == LINES
  {
    Message(NumberIn(items[0]), NumberIn(items[1]), NumberIn(items[2]), NumberIn(items[3]),
            WordsIn(items[4]), WordsIn(items[5]), WordsIn(items[6]), WordsIn(items[7]), WordsIn(items[8]),
            TokenIn(items[9]), NumberIn(items[10]), OpaqueIn(items[11]),
            BlockIn(items[12]), BlockIn(items[13]), payload)
  }

  function ReadText(s: string): Option<Message> {
    match ReadItems(0, s)
    case None => None
    case Some(p) => if |p.0| == LINES then Some(MessageOf(p.0, p.1)) else None
  }

  // ----- the items of a message -----

  function NumberItem(n: Option<nat>): Item {
    if n.Some? then Number(n.value) else Absent
  }

  function WordsItem(text: string): Item {
    if text != "" then Words(text) else Absent
  }

  function TokenItem(token: seq<byte>): Item {
    if token != [] then Opaque(token) else Absent
  }

  function OpaqueItem(bytes: Option<seq<byte>>): Item {
    if bytes.Some? then Opaque(bytes.value) else Absent
  }

  function BlockItem(block: Option<BlockOption>): Item {
    if block.Some? then Blockwise(block.value) else Absent
  }

  function ItemsOf(m: Message): (items: seq<Item>)
    ensures |items| == LINES
  {
    [NumberItem(m.contentFormat), NumberItem(m.accept), NumberItem(m.maxAge), NumberItem(m.size1),
     WordsItem(m.uriHost), WordsItem(m.uriPath), WordsItem(m.uriQuery), WordsItem(m.locationPath),
     WordsItem(m.locationQuery), TokenItem(m.token), NumberItem(m.observe), OpaqueItem(m.etag),
     BlockItem(m.block2), BlockItem(m.block1)]
  }

  /** An item as it stands on line i. */
  predicate Fits(i: nat, item: Item) {
    match item
    case Absent => true
    case Number(_) => KindOf(i) == NumberKind
    case Words(text) => KindOf(i) == WordsKind && text != ""
    case Opaque(bytes) => KindOf(i) == OpaqueKind && (i == 9 ==> bytes != [])
    case Blockwise(_) => KindOf(i) == BlockKind
  }

  lemma ItemsFit(m: Message)
    ensures forall i | 0 <= i < LINES :: Fits(i, ItemsOf(m)[i])
    ensures MessageOf(ItemsOf(m), m.payload) == m
  {
  }

  /** Items that fit are those of the message made of them. */
  lemma ItemsBack(items: seq<Item>, payload: string)
    requires |items| == LINES && forall i | 0 <= i < LINES :: Fits(i, items[i])
    ensures ItemsOf(MessageOf(items, payload)) == items
  {
    hide NumberItem, NumberIn, WordsItem, WordsIn, TokenItem, TokenIn, OpaqueItem, OpaqueIn, BlockItem, BlockIn, Fits;
    forall i: nat | i < LINES
      ensures KindOf(i) == NumberKind ==> NumberItem(NumberIn(items[i])) == items[i]
      ensures KindOf(i) == WordsKind ==> WordsItem(WordsIn(items[i])) == items[i]
      ensures i == 9 ==> TokenItem(TokenIn(items[i])) == items[i]
      ensures KindOf(i) == OpaqueKind ==> OpaqueItem(OpaqueIn(items[i])) == items[i]
      ensures KindOf(i) == BlockKind ==> BlockItem(BlockIn(items[i])) == items[i]
    {
      ItemBack(i, items[i]);
    }
  }

  lemma ItemBack(i: nat, item: Item)
    requires Fits(i, item)
    ensures KindOf(i) == NumberKind ==> NumberItem(NumberIn(item)) == item
    ensures KindOf(i) == WordsKind ==> WordsItem(WordsIn(item)) == item
    ensures i == 9 ==> TokenItem(TokenIn(item)) == item
    ensures KindOf(i) == OpaqueKind ==> OpaqueItem(OpaqueIn(item)) == item
    ensures KindOf(i) == BlockKind ==> BlockItem(BlockIn(item)) == item
  {
  }

  lemma {:induction false} ReadItemsFit(i: nat, s: string)
    requires i <= LINES
    ensures ReadItems(i, s).Some? ==>
              var items := ReadItems(i, s).value.0;
              |items| == LINES - i && forall k | 0 <= k < |items| :: Fits(i + k, items[k])
    decreases LINES - i
  {
    hide ReadLine, ReadBlock, HexDecode, ParseNat;
    if i < LINES {
      var first := ReadItem(i, s);
      if first.Some? {
        ReadItemsFit(i + 1, first.value.1);
      }
    }
  }

  /** So reading a message back is reading its items back. */
  lemma ReadsItems(m: Message, s: string)
    ensures ReadText(s) == Some(m) <==> ReadItems(0, s) == Some((ItemsOf(m), m.payload))
  {
    hide ReadItems, ItemsOf, MessageOf, Fits;
    ItemsFit(m);
    ReadItemsFit(0, s);
    var p := ReadItems(0, s);
    if p.Some? {
      ItemsBack(p.value.0, p.value.1);
      PayloadKept(p.value.0, p.value.1);
    }
  }

  lemma PayloadKept(items: seq<Item>, payload: string)
    requires |items| == LINES
    ensures MessageOf(items, payload).payload == payload
  {
  }

  // ----- the printed lines -----

  function Body(item: Item): string {
    match item
    case Absent => ""
    case Number(n) => Decimal(n)
    case Words(text) => CString(text)
    case Opaque(bytes) => HexString(bytes)
    case Blockwise(block) =>
      Decimal(block.num) + ((if block.more then "+" else "") + (" (" + (Decimal(block.size) + ")")))
  }

  /** The line of an item, in front of the text behind it. */
  function LineThen(i: nat, item: Item, tail: string): string
    requires i < LINES
  {
    if item.Absent? then tail else NAMES[i] + (Body(item) + ("\n" + tail))
  }

  /** The text from the i-th section on. */
  function TextFrom(m: Message, i: nat): string
    requires i <= LINES
    decreases LINES - i
  {
    if i == LINES then CString(m.payload) else LineThen(i, ItemsOf(m)[i], TextFrom(m, i + 1))
  }

  lemma SectionIsLine(m: Message, i: nat, tail: string)
    requires i < LINES
    ensures Section(m, i) + tail == LineThen(i, ItemsOf(m)[i], tail)
  {
    hide Decimal, CString, HexString, LineThen;
    var item := ItemsOf(m)[i];
    match item
    case Absent => LineIs(i, item, tail);
    case Blockwise(block) => BlockIs(NAMES[i], block); LineIs(i, item, tail);
    case _ => LineIs(i, item, tail);
  }

  lemma LineIs(i: nat, item: Item, tail: string)
    requires i < LINES
    ensures (if item.Absent? then "" else NAMES[i] + Body(item) + "\n") + tail == LineThen(i, item, tail)
  {
    hide Body;
    if item.Absent? {
      assert "" + tail == tail;
    } else {
      Regrouped(NAMES[i], Body(item), tail);
    }
  }

  lemma Regrouped(name: string, body: string, tail: string)
    ensures (name + body + "\n") + tail == name + (body + ("\n" + tail))
  {
  }

  lemma BlockIs(name: string, block: BlockOption)
    ensures BlockLine(name, Some(block)) == name + Body(Blockwise(block)) + "\n"
  {
    hide Decimal;
  }

  /** Line by line, the whole text. */
  lemma {:induction false} TextFromFirst(m: Message, i: nat)
    requires i <= LINES
    ensures Ideal(m) == Flatten(m, i) + TextFrom(m, i)
    decreases LINES - i
  {
    hide Section, CString, LineThen, ItemsOf;
    if i < LINES {
      TextFromFirst(m, i + 1);
      SectionIsLine(m, i, TextFrom(m, i + 1));
    } else {
      PayloadIs(m);
    }
  }

  lemma PayloadIs(m: Message)
    ensures Section(m, LINES) == CString(m.payload)
  {
  }

  // ----- reading them -----

  /** The line read ends at the first line end, wherever that is. */
  lemma {:induction false} FirstLine(text: string, tail: string)
    ensures var r := ReadLine(text + ("\n" + tail));
            && r.Some? && r.value.0 <= text && '\n' !in r.value.0
            && ('\n' !in text ==> r.value == (text, tail))
  {
    var s := text + ("\n" + tail);
    if text == "" {
      assert s[0] == '\n' && s[1..] == tail;
    } else {
      FirstLine(text[1..], tail);
      assert s[0] == text[0] && s[1..] == text[1..] + ("\n" + tail);
      assert text == [text[0]] + text[1..];
    }
  }

  lemma {:induction false} HexOnOneLine(bytes: seq<byte>)
    ensures '\n' !in HexString(bytes)
  {
    if bytes != [] {
      HexOnOneLine(bytes[..|bytes| - 1]);
    }
  }

  lemma NumberBack(n: nat)
    ensures ParseNat(Decimal(n)) == Some((n, "")) && '\n' !in Decimal(n)
  {
    ParseDecimal(n, "");
    assert Decimal(n) + "" == Decimal(n);
  }

  function SizeText(size: nat): string {
    " (" + (Decimal(size) + ")")
  }

  lemma BlockBack(block: BlockOption)
    ensures ReadBlock(Body(Blockwise(block))) == Some(block)
  {
    hide Decimal, ParseNat, SizeText, ReadSize;
    var behind := (if block.more then "+" else "") + SizeText(block.size);
    SizeBack(block.size);
    PlusAhead(block.more, SizeText(block.size));
    ParseDecimal(block.num, behind);
    assert Body(Blockwise(block)) == Decimal(block.num) + behind by { BlockBody(block); }
  }

  lemma BlockBody(block: BlockOption)
    ensures Body(Blockwise(block)) == Decimal(block.num) + ((if block.more then "+" else "") + SizeText(block.size))
  {
    hide Decimal;
  }

  lemma SizeBack(size: nat)
    ensures ReadSize(SizeText(size)) == Some(size) && SizeText(size) != "" && SizeText(size)[0] == ' '
  {
    hide Decimal, ParseNat;
    ParseDecimal(size, ")");
    assert SizeText(size)[2..] == Decimal(size) + ")";
  }

  lemma PlusAhead(more: bool, size: string)
    requires size != "" && size[0] == ' '
    ensures var s := (if more then "+" else "") + size;
            && NoDigitAhead(s) && s != "" && (s[0] == '+' <==> more)
            && (if more then s[1..] else s) == size
  {
  }

  lemma BlockOnOneLine(block: BlockOption)
    ensures '\n' !in Body(Blockwise(block))
  {
    hide Decimal;
    NumberBack(block.num);
    NumberBack(block.size);
  }

  /** The body of any line but that of a string is one line and reads as its item. */
  lemma BodyBack(i: nat, item: Item)
    requires i < LINES && Fits(i, item) && !item.Absent? && !item.Words?
    ensures ReadValue(i, Body(item)) == Some(item) && '\n' !in Body(item)
  {
    hide Decimal, ParseNat, HexString, HexDecode, ReadBlock;
    match item
    case Number(n) => NumberBack(n);
    case Opaque(bytes) =>
      HexStringRoundTrip(bytes);
      HexOnOneLine(bytes);
    case Blockwise(block) =>
      BlockBack(block);
      BlockOnOneLine(block);
  }

  /** A string that is printed whole and on one line. */
  predicate OneLine(text: string) {
    NUL !in text && '\n' !in text
  }

  lemma WholeCString(text: string)
    ensures CString(text) == text <==> NUL !in text
  {
  }

  /** A printed line reads as its item, and leaves the text behind it, exactly when its string is on one line. */
  lemma LineBack(i: nat, item: Item, tail: string)
    requires i < LINES && Fits(i, item) && !item.Absent?
    ensures var r := ReadItem(i, LineThen(i, item, tail));
            if item.Words? && !OneLine(item.text) then r.None? || r.value.0 != item else r == Some((item, tail))
  {
    hide ParseNat, HexDecode, ReadBlock, ReadLine, Body;
    var s := LineThen(i, item, tail);
    assert NAMES[i] <= s && s[|NAMES[i]|..] == Body(item) + ("\n" + tail);
    FirstLine(Body(item), tail);
    if item.Words? {
      WordsBody(item);
    } else {
      BodyBack(i, item);
    }
  }

  lemma WordsBody(item: Item)
    requires item.Words?
    ensures NUL !in Body(item) && (OneLine(item.text) ==> Body(item) == item.text)
  {
    WholeCString(item.text);
  }

  // ----- exactly which messages are read back -----

  predicate NoneFrom(m: Message, i: nat)
    requires i <= LINES
  {
    forall k | i <= k < LINES :: ItemsOf(m)[k].Absent?
  }

  lemma NamesDiffer(i: nat, j: nat)
    requires i < j < LINES
    ensures NAMES[i][0] != NAMES[j][0] || NAMES[i][1] != NAMES[j][1]
  {
  }

  lemma LineAhead(i: nat, j: nat, item: Item, tail: string)
    requires i < j < LINES && !item.Absent?
    ensures !(NAMES[i] <= LineThen(j, item, tail))
  {
    hide Body;
    NamesDiffer(i, j);
    var text := LineThen(j, item, tail);
    assert text[0] == NAMES[j][0] && text[1] == NAMES[j][1];
  }

  /** From a later line on, the text begins with an earlier name only if nothing but the payload is left. */
  lemma {:induction false} NameAhead(m: Message, i: nat, j: nat)
    requires i < j <= LINES
    ensures NAMES[i] <= TextFrom(m, j) <==> NoneFrom(m, j) && NAMES[i] <= CString(m.payload)
    decreases LINES - j
  {
    hide CString, LineThen, ItemsOf;
    if j < LINES {
      NameAhead(m, i, j + 1);
      if !ItemsOf(m)[j].Absent? {
        LineAhead(i, j, ItemsOf(m)[j], TextFrom(m, j + 1));
      } else {
        AbsentLine(j, TextFrom(m, j + 1));
      }
    }
  }

  /** The i-th line, or its absence, is unmistakable. */
  predicate Clear(m: Message, i: nat)
    requires i < LINES
  {
    match ItemsOf(m)[i]
    case Absent => !(NoneFrom(m, i) && NAMES[i] <= CString(m.payload))
    case Words(text) => OneLine(text)
    case _ => true
  }

  lemma ClearExactly(m: Message, i: nat)
    requires i < LINES
    ensures var r, item := ReadItem(i, TextFrom(m, i)), ItemsOf(m)[i];
            && (Clear(m, i) ==> r == Some((item, TextFrom(m, i + 1))))
            && (!Clear(m, i) ==> r.None? || r.value.0 != item)
  {
    hide ItemsOf, CString, ReadLine, LineThen;
    ItemsFit(m);
    var item := ItemsOf(m)[i];
    if item.Absent? {
      NameAhead(m, i, i + 1);
      assert LineThen(i, item, TextFrom(m, i + 1)) == TextFrom(m, i + 1) by { AbsentLine(i, TextFrom(m, i + 1)); }
    } else {
      LineBack(i, item, TextFrom(m, i + 1));
    }
  }

  lemma AbsentLine(i: nat, tail: string)
    requires i < LINES
    ensures LineThen(i, Absent, tail) == tail
  {
  }

  lemma {:induction false} ClearFrom(m: Message, i: nat)
    requires i <= LINES
    ensures ReadItems(i, TextFrom(m, i)) == Some((ItemsOf(m)[i..], m.payload))
            <==> NUL !in m.payload && forall k | i <= k < LINES :: Clear(m, k)
    decreases LINES - i
  {
    hide ItemsOf, CString, ReadItem, ReadItems, Clear, TextFrom;
    if i == LINES {
      PayloadBack(m);
    } else {
      ClearExactly(m, i);
      ClearFrom(m, i + 1);
      ItemsStep(i, TextFrom(m, i));
      FirstItem(ItemsOf(m), i);
      assert Clear(m, i) || exists k :: i <= k < LINES && !Clear(m, k);
    }
  }

  lemma PayloadBack(m: Message)
    ensures ReadItems(LINES, TextFrom(m, LINES)) == Some((ItemsOf(m)[LINES..], m.payload)) <==> NUL !in m.payload
  {
    hide ItemsOf, CString;
    WholeCString(m.payload);
    assert ItemsOf(m)[LINES..] == [];
  }

  lemma ItemsStep(i: nat, s: string)
    requires i < LINES
    ensures ReadItems(i, s) ==
            match ReadItem(i, s)
            case None => None
            case Some(first) =>
              match ReadItems(i + 1, first.1)
              case None => None
              case Some(p) => Some(([first.0] + p.0, p.1))
  {
  }

  lemma FirstItem<T>(items: seq<T>, i: nat)
    requires i < |items|
    ensures items[i..] == [items[i]] + items[i + 1..]
    ensures forall x, rest | [x] + rest == items[i..] :: x == items[i] && rest == items[i + 1..]
  {
    forall x, rest | [x] + rest == items[i..]
      ensures x == items[i] && rest == items[i + 1..]
    {
      assert ([x] + rest)[0] == items[i] && ([x] + rest)[1..] == items[i + 1..];
    }
  }

  /**
   No string holds a line end or a NUL, and if the last lines are absent, the payload does not begin with
   the name of one of them.
   */
  ghost predicate Readable(m: Message) {
    && OneLine(m.uriHost) && OneLine(m.uriPath) && OneLine(m.uriQuery)
    && OneLine(m.locationPath) && OneLine(m.locationQuery) && NUL !in m.payload
    && forall i | 0 <= i < LINES && NoneFrom(m, i) :: !(NAMES[i] <= m.payload)
  }

  /** The printed text gives every option and the payload back exactly when the message is readable. */
  lemma ReadBackExactly(m: Message)
    ensures ReadText(Ideal(m)) == Some(m) <==> Readable(m)
  {
    hide ReadText, ReadItems, ItemsOf, Clear, OneLine, NoneFrom;
    TextFromFirst(m, 0);
    assert Flatten(m, 0) + TextFrom(m, 0) == TextFrom(m, 0);
    ReadsItems(m, Ideal(m));
    ClearFrom(m, 0);
    assert ItemsOf(m)[0..] == ItemsOf(m);
    ReadableIsClear(m);
  }

  lemma ReadableIsClear(m: Message)
    ensures Readable(m) <==> NUL !in m.payload && forall k | 0 <= k < LINES :: Clear(m, k)
  {
    hide ItemsOf, Clear, OneLine, NoneFrom;
    if NUL !in m.payload {
      forall k: nat | k < LINES
        ensures Clear(m, k) <==> OneLine(WordsIn(ItemsOf(m)[k])) && !(NoneFrom(m, k) && NAMES[k] <= m.payload)
      {
        ClearIs(m, k);
      }
      FiveStrings(m);
    }
  }

  lemma ClearIs(m: Message, k: nat)
    requires k < LINES && NUL !in m.payload
    ensures Clear(m, k) <==> OneLine(WordsIn(ItemsOf(m)[k])) && !(NoneFrom(m, k) && NAMES[k] <= m.payload)
  {
    hide ItemsOf;
    WholeCString(m.payload);
    if NoneFrom(m, k) {
      assert ItemsOf(m)[k].Absent?;
    }
  }

  lemma FiveStrings(m: Message)
    ensures (forall k: nat | k < LINES :: OneLine(WordsIn(ItemsOf(m)[k]))) <==>
            && OneLine(m.uriHost) && OneLine(m.uriPath) && OneLine(m.uriQuery)
            && OneLine(m.locationPath) && OneLine(m.locationQuery)
  {
    var w: seq<string> := [m.uriHost, m.uriPath, m.uriQuery, m.locationPath, m.locationQuery];
    WordsAt(m, w);
    assert OneLine("");
    hide ItemsOf, WordsIn, OneLine;
    assert WordsIn(ItemsOf(m)[4]) == w[0] && WordsIn(ItemsOf(m)[5]) == w[1] && WordsIn(ItemsOf(m)[6]) == w[2];
    assert WordsIn(ItemsOf(m)[7]) == w[3] && WordsIn(ItemsOf(m)[8]) == w[4];
  }

  lemma WordsAt(m: Message, w: seq<string>)
    requires w == [m.uriHost, m.uriPath, m.uriQuery, m.locationPath, m.locationQuery]
    ensures forall k: nat | k < LINES :: WordsIn(ItemsOf(m)[k]) == if 4 <= k < 9 then w[k - 4] else ""
  {
  }

  /** For example, a payload of "Ob 1" and a line end, in a message without options, is taken for Observe. */
  lemma PayloadAsOption(m: Message)
    requires m == Message(None, None, None, None, "", "", "", "", "", [], None, None, None, None, "Ob 1\n")
    ensures ReadText(Ideal(m)) != Some(m)
  {
    assert NAMES[10] == "Ob " <= m.payload;
    assert NoneFrom(m, 10);
    ReadBackExactly(m);
  }
}
