/**
 The JSON dump of a Bluetooth scan in ble_rss_scan.c: standard output is a text that only
 grows, the scan list a sequence walked element by element. The results of looking up the
 device name and the transmit power in the advertising data come with each entry.
 */
module ScanJson {
  import opened Text

  const INT8_MAX: int := 127

  /** A scan list entry with the two name lookups and the transmit power lookup on its data. */
  datatype Entry = Entry(
    addr: seq<byte>, addrType: nat, advType: nat, ad: seq<byte>, lastRssi: int,
    advMsgCnt: nat, firstUpdate: nat, lastUpdate: nat,
    completeName: Option<string>, shortName: Option<string>, txPower: Option<byte>)

  /** What the dump shows of an entry. */
  datatype Node = Node(
    addr: seq<byte>, addrType: nat, name: string, advType: nat, adData: seq<byte>, lastRssi: int,
    txPower: int, advMsgCnt: nat, firstUpdate: nat, lastUpdate: nat)

  function NameOf(e: Entry): string {
    match (e.completeName, e.shortName)
    case (Some(name), _) => name
    case (None, Some(name)) => name
    case _ => "undefined"
  }

  /** The field's byte as an `int8_t`, or INT8_MAX when there is no such field. */
  function TxPowerOf(e: Entry): int {
    match e.txPower
    case None => INT8_MAX
    case Some(b) => if b < 128 then b else b - 256
  }

  /** The shown power is a signed byte, and tells the field apart except that 127 also stands for no field. */
  lemma TxPowerTells(a: Entry, b: Entry)
    ensures -128 <= TxPowerOf(a) <= INT8_MAX
    ensures a.txPower.Some? ==> (TxPowerOf(a) - a.txPower.value) % 256 == 0
    ensures TxPowerOf(a) == TxPowerOf(b) <==>
            a.txPower == b.txPower || {a.txPower, b.txPower} == {None, Some(INT8_MAX)}
  {
    if a.txPower.Some? && a.txPower.value >= 128 {
      assert (-256) % 256 == 0;
    }
    assert {a.txPower, b.txPower} == {None, Some(INT8_MAX)} <==>
           (a.txPower == None && b.txPower == Some(INT8_MAX)) || (a.txPower == Some(INT8_MAX) && b.txPower == None);
  }

  function NodeOf(e: Entry): Node {
    Node(e.addr, e.addrType, NameOf(e), e.advType, e.ad, e.lastRssi, TxPowerOf(e),
         e.advMsgCnt, e.firstUpdate, e.lastUpdate)
  }

  function Reverse(b: seq<byte>): (r: seq<byte>)
    ensures |r| == |b|
  {
    if b == [] then [] else [b[|b| - 1]] + Reverse(b[..|b| - 1])
  }

  lemma {:induction false} ReverseAt(b: seq<byte>, i: nat)
    requires i < |b|
    ensures Reverse(b)[i] == b[|b| - 1 - i]
  {
    if i > 0 {
      ReverseAt(b[..|b| - 1], i - 1);
    }
  }

  // ----- the printed grammar -----

  datatype Value = Bytes(bytes: seq<byte>) | Number(number: int) | Str(text: string)

  datatype Field = Field(key: string, value: Value)

  const FIELDS: nat := 10

  /** The fields of a node in printing order; the address bytes are shown last to first. */
  function FieldsOf(n: Node): (f: seq<Field>)
    ensures |f| == FIELDS
  {
    [Field("addr", Bytes(Reverse(n.addr))), Field("addr_type", Number(n.addrType)), Field("name", Str(n.name)),
     Field("adv_type", Number(n.advType)), Field("ad_data", Bytes(n.adData)), Field("last_rssi", Number(n.lastRssi)),
     Field("txpwr_dbm", Number(n.txPower)), Field("adv_msg_cnt", Number(n.advMsgCnt)),
     Field("first_update", Number(n.firstUpdate)), Field("last_update", Number(n.lastUpdate))]
  }

  /** The items of a byte array from the first on, up to its closing bracket. */
  function ItemsText(bytes: seq<byte>): string {
    if bytes == [] then "]"
    else "\"" + Hex(bytes[0]) + "\"" + (if |bytes| > 1 then "," else "") + ItemsText(bytes[1..])
  }

  function ValueText(v: Value): string {
    match v
    case Bytes(bytes) => "[" + ItemsText(bytes)
    case Number(number) => Signed(number)
    case Str(text) => "\"" + text + "\""
  }

  function KeyText(key: string): string {
    "\"" + key + "\":"
  }

  /** The text of an object from field i on. */
  function FieldsText(f: seq<Field>, i: nat): string
    requires i <= |f|
    decreases |f| - i
  {
    if i == |f| then "}"
    else (if i > 0 then "," else "") + KeyText(f[i].key) + ValueText(f[i].value) + FieldsText(f, i + 1)
  }

  function NodeText(n: Node): string {
    "{" + FieldsText(FieldsOf(n), 0)
  }

  /** The texts of the nodes of a list, from the i-th on, up to the end of the list. */
  function JoinedText(t: seq<string>, i: nat): string
    requires i <= |t|
    decreases |t| - i
  {
    if i == |t| then "]}\n"
    else t[i] + (if i + 1 < |t| then ", " else "") + JoinedText(t, i + 1)
  }

  const HEADER: string := "{\"nodes\": ["

  function TextsOf(nodes: seq<Node>): (t: seq<string>)
    ensures |t| == |nodes|
    ensures forall i | 0 <= i < |nodes| :: t[i] == NodeText(nodes[i])
  {
    seq(|nodes|, i requires 0 <= i < |nodes| => NodeText(nodes[i]))
  }

  function ListText(nodes: seq<Node>): string {
    HEADER + JoinedText(TextsOf(nodes), 0)
  }

  function NodesOf(list: seq<Entry>): (r: seq<Node>)
    ensures |r| == |list|
    ensures forall i | 0 <= i < |list| :: r[i] == NodeOf(list[i])
  {
    seq(|list|, i requires 0 <= i < |list| => NodeOf(list[i]))
  }

  /** What is printed and what is still to print, when one more piece moves over. */
  lemma Moved(before: string, piece: string, rest: string)
    ensures (before + piece) + rest == before + (piece + rest)
  {
  }

  // ----- the printer -----

  class Stdout {
    var text: string

    constructor ()
      ensures text == ""
    {
      text := "";
    }

    method Printf(s: string)
      modifies this
      ensures text == old(text) + s
    {
      text := text + s;
    }

    /** One item of a byte array, the first of `left`, `left` being the items still to print. */
    method PrintItem(b: byte, more: bool, ghost left: seq<byte>)
      requires left != [] && b == left[0] && (more <==> |left| > 1)
      modifies this
      ensures text + ItemsText(left[1..]) == old(text) + ItemsText(left)
    {
      ghost var before, quoted := text, "\"" + Hex(b) + "\"";
      Printf("\"" + Hex(b) + "\"");
      if more {
        Printf(",");
        Moved(before, quoted, ",");
      } else {
        assert quoted + "" == quoted;
      }
      Moved(before, quoted + (if more then "," else ""), ItemsText(left[1..]));
    }

    /** `_print_buffer`: from the end to the start if `reverse`. */
    method PrintBuffer(bytes: seq<byte>, reverse: bool)
      modifies this
      ensures text == old(text) + ValueText(Bytes(if reverse then Reverse(bytes) else bytes))
    {
      ghost var before := text;
      Printf("[");
      if reverse {
        PrintDown(bytes);
      } else {
        PrintUp(bytes);
      }
      Printf("]");
      Moved(before, "[", ItemsText(if reverse then Reverse(bytes) else bytes));
    }

    method PrintDown(bytes: seq<byte>)
      modifies this
      ensures text + "]" == old(text) + ItemsText(Reverse(bytes))
    {
      ghost var shown := Reverse(bytes);
      assert shown[0..] == shown;
      var i := |bytes| - 1;
      while i >= 0
        invariant -1 <= i < |bytes|
        invariant text + ItemsText(shown[|bytes| - 1 - i..]) == old(text) + ItemsText(shown)
      {
        ghost var left := shown[|bytes| - 1 - i..];
        ReverseAt(bytes, |bytes| - 1 - i);
        PrintItem(bytes[i], i > 0, left);
        assert left[1..] == shown[|bytes| - i..];
        i := i - 1;
      }
    }

    method PrintUp(bytes: seq<byte>)
      modifies this
      ensures text + "]" == old(text) + ItemsText(bytes)
    {
      assert bytes[0..] == bytes;
      var i := 0;
      while i < |bytes|
        invariant 0 <= i <= |bytes|
        invariant text + ItemsText(bytes[i..]) == old(text) + ItemsText(bytes)
      {
        ghost var left := bytes[i..];
        PrintItem(bytes[i], i < |bytes| - 1, left);
        assert left[1..] == bytes[i + 1..];
        i := i + 1;
      }
    }

    /** `printf` of a number field; `f` are the fields of the object, of which i have been printed. */
    method PrintNumber(key: string, number: int, ghost f: seq<Field>, ghost i: nat, ghost whole: string)
      requires 0 < i < |f| && f[i] == Field(key, Number(number))
      requires text + FieldsText(f, i) == whole
      modifies this
      ensures text + FieldsText(f, i + 1) == whole
    {
      ghost var before := text;
      Printf("," + KeyText(key) + Signed(number));
      Moved(before, "," + KeyText(key) + Signed(number), FieldsText(f, i + 1));
    }

    method PrintBytes(lead: string, key: string, bytes: seq<byte>, reverse: bool,
                      ghost f: seq<Field>, ghost i: nat, ghost whole: string)
      requires i < |f| && f[i] == Field(key, Bytes(if reverse then Reverse(bytes) else bytes))
      requires lead == (if i > 0 then "," else "")
      requires text + FieldsText(f, i) == whole
      modifies this
      ensures text + FieldsText(f, i + 1) == whole
    {
      ghost var before, value := text, ValueText(f[i].value);
      Printf(lead + KeyText(key));
      PrintBuffer(bytes, reverse);
      Moved(before, lead + KeyText(key), value);
      Moved(before, lead + KeyText(key) + value, FieldsText(f, i + 1));
    }

    method PrintString(key: string, value: string, ghost f: seq<Field>, ghost i: nat, ghost whole: string)
      requires 0 < i < |f| && f[i] == Field(key, Str(value))
      requires text + FieldsText(f, i) == whole
      modifies this
      ensures text + FieldsText(f, i + 1) == whole
    {
      ghost var before := text;
      Printf("," + KeyText(key) + ("\"" + value + "\""));
      Moved(before, "," + KeyText(key) + ("\"" + value + "\""), FieldsText(f, i + 1));
    }

    /** `_scanlist_json_print_entry` */
    method PrintEntry(e: Entry)
      modifies this
      ensures text == old(text) + NodeText(NodeOf(e))
    {
      var name, txPower := LookUp(e);
      ghost var f := FieldsOf(NodeOf(e));
      Moved(text, "{", FieldsText(f, 0));
      Printf("{");
      PrintFields(e, name, txPower, f);
    }

    /** The name and transmit power to show, from the lookups in the advertising data. */
    method LookUp(e: Entry) returns (name: string, txPower: int)
      ensures name == NameOf(e) && txPower == TxPowerOf(e)
      ensures -128 <= txPower <= INT8_MAX
    {
      if e.completeName.Some? {
        name := e.completeName.value;
      } else if e.shortName.Some? {
        name := e.shortName.value;
      } else {
        name := "undefined";
      }
      if e.txPower.Some? {
        var b: int := e.txPower.value;
        txPower := if b < 128 then b else b - 256;
      } else {
        txPower := INT8_MAX;
      }
    }

    method PrintFields(e: Entry, name: string, txPower: int, ghost f: seq<Field>)
      requires f == FieldsOf(NodeOf(e)) && name == NameOf(e) && txPower == TxPowerOf(e)
      modifies this
      ensures text == old(text) + FieldsText(f, 0)
    {
      ghost var whole := text + FieldsText(f, 0);
      PrintIdentity(e, name, f, whole);
      PrintAdvertisement(e, f, whole);
      PrintMeasurements(e, txPower, f, whole);
      Printf("}");
    }

    /** Address, address type and name. */
    method PrintIdentity(e: Entry, name: string, ghost f: seq<Field>, ghost whole: string)
      requires |f| == FIELDS && text + FieldsText(f, 0) == whole
      requires f[0] == Field("addr", Bytes(Reverse(e.addr))) && f[1] == Field("addr_type", Number(e.addrType))
      requires f[2] == Field("name", Str(name))
      modifies this
      ensures text + FieldsText(f, 3) == whole
    {
      hide FieldsText, ValueText, KeyText;
      PrintBytes("", "addr", e.addr, true, f, 0, whole);
      PrintNumber("addr_type", e.addrType, f, 1, whole);
      PrintString("name", name, f, 2, whole);
    }

    method PrintAdvertisement(e: Entry, ghost f: seq<Field>, ghost whole: string)
      requires |f| == FIELDS && text + FieldsText(f, 3) == whole
      requires f[3] == Field("adv_type", Number(e.advType)) && f[4] == Field("ad_data", Bytes(e.ad))
      modifies this
      ensures text + FieldsText(f, 5) == whole
    {
      hide FieldsText, ValueText, KeyText;
      PrintNumber("adv_type", e.advType, f, 3, whole);
      PrintBytes(",", "ad_data", e.ad, false, f, 4, whole);
    }

    /** Signal strengths, message count and time stamps. */
    method PrintMeasurements(e: Entry, txPower: int, ghost f: seq<Field>, ghost whole: string)
      requires |f| == FIELDS && text + FieldsText(f, 5) == whole
      requires f[5] == Field("last_rssi", Number(e.lastRssi)) && f[6] == Field("txpwr_dbm", Number(txPower))
      requires f[7] == Field("adv_msg_cnt", Number(e.advMsgCnt)) && f[8] == Field("first_update", Number(e.firstUpdate))
      requires f[9] == Field("last_update", Number(e.lastUpdate))
      modifies this
      ensures text + "}" == whole
    {
      PrintNumber("last_rssi", e.lastRssi, f, 5, whole);
      PrintNumber("txpwr_dbm", txPower, f, 6, whole);
      PrintNumber("adv_msg_cnt", e.advMsgCnt, f, 7, whole);
      PrintNumber("first_update", e.firstUpdate, f, 8, whole);
      PrintNumber("last_update", e.lastUpdate, f, 9, whole);
    }

    /** `_scanlist_json_print`: `e` is a place in the list, |list| standing for the null pointer. */
    method PrintList(list: seq<Entry>)
      modifies this
      ensures text == old(text) + ListText(NodesOf(list))
    {
      ghost var before, t := text, TextsOf(NodesOf(list));
      Printf("{\"nodes\": [");
      PrintNodes(list, t);
      Printf("]}\n");
      Moved(before, HEADER, JoinedText(t, 0));
    }

    /** The loop over the scan list. */
    method PrintNodes(list: seq<Entry>, ghost t: seq<string>)
      requires |t| == |list| && forall i | 0 <= i < |list| :: t[i] == NodeText(NodeOf(list[i]))
      modifies this
      ensures text + "]}\n" == old(text) + JoinedText(t, 0)
    {
      hide NodeText, NodeOf, FieldsOf;
      ghost var whole := text + JoinedText(t, 0);
      var e := 0;
      while e < |list|
        invariant e <= |list|
        invariant text + JoinedText(t, e) == whole
      {
        ghost var before := text;
        PrintEntry(list[e]);
        e := e + 1;
        PrintSeparator(e < |list|);
        JoinedMoved(before, t, e - 1);
      }
    }

    method PrintSeparator(more: bool)
      modifies this
      ensures text == old(text) + if more then ", " else ""
    {
      if more {
        Printf(", ");
      } else {
        assert text == text + "";
      }
    }
  }

  lemma JoinedMoved(before: string, t: seq<string>, i: nat)
    requires i < |t|
    ensures before + t[i] + (if i + 1 < |t| then ", " else "") + JoinedText(t, i + 1) == before + JoinedText(t, i)
  {
    var separator := if i + 1 < |t| then ", " else "";
    Moved(before, t[i], separator);
    Moved(before, t[i] + separator, JoinedText(t, i + 1));
  }
}
