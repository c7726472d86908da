/**
 When two scan lists print the same text. A name ends at its closing quote and the key behind
 it; inside a name of up to 31 characters, which is all the program's name buffer holds, no
 quote can be taken for that end.
 */
module ScanJsonUnique {
  import opened Text
  import opened ScanJson
  import opened ScanJsonReader

  const NAME_MAX: nat := 31

  /** Names whose end cannot be mistaken. */
  predicate EndsClearly(name: string) {
    |name| <= 31 || '"' !in name
  }

  // ----- where the end of a name can be -----

  /** A quote, a comma, a quote and an `a`, as at the end of a name and nowhere near behind it. */
  predicate Mark(s: string, i: nat) {
    i + 3 < |s| && s[i] == '"' && s[i + 1] == ',' && s[i + 2] == '"' && s[i + 3] == 'a'
  }

  lemma MarkBehind(first: string, later: string, i: nat)
    ensures i >= |first| ==> Mark(first + later, i) == Mark(later, i - |first|)
    ensures i < |first| && Mark(first + later, i) ==> first[i] == '"' && (i + 1 < |first| ==> first[i + 1] == ',')
    ensures i + 2 < |first| && Mark(first + later, i) ==> first[i + 2] == '"'
    ensures i + 3 < |first| && Mark(first + later, i) ==> first[i + 3] == 'a'
  {
  }

  lemma HexIsUpper(b: byte)
    ensures forall i | 0 <= i < 2 :: Hex(b)[i] != '"' && Hex(b)[i] != ',' && Hex(b)[i] != 'a' && Hex(b)[i] != ']'
  {
  }

  /** No mark starts inside a byte array. */
  lemma {:induction false} ItemsUnmarked(bytes: seq<byte>, later: string, i: nat)
    requires i < |ItemsText(bytes)|
    ensures !Mark(ItemsText(bytes) + later, i)
    decreases |bytes|
  {
    if bytes == [] {
      assert (ItemsText(bytes) + later)[0] == ']';
    } else {
      var s, h, rest := ItemsText(bytes) + later, Hex(bytes[0]), ItemsText(bytes[1..]) + later;
      HexIsUpper(bytes[0]);
      ItemSplit(bytes, later);
      ItemsStart(bytes[1..], later);
      var n := if s[4] == ',' then 5 else 4;
      if i < n {
        assert |bytes| > 1 ==> s[4] == ',';
        assert s[n..][0] == rest[0];
        if i == 3 && n == 5 {
          assert s[6] == s[5..][1] == rest[1];
        }
      } else {
        ItemsUnmarked(bytes[1..], later, i - n);
        CutAt(s, n);
        MarkBehind(s[..n], rest, i);
      }
    }
  }

  lemma CutAt(s: string, n: nat)
    requires n <= |s|
    ensures s == s[..n] + s[n..]
  {
  }

  lemma ItemsStart(bytes: seq<byte>, later: string)
    ensures var s := ItemsText(bytes) + later;
            && |ItemsText(bytes)| > 0
            && (bytes == [] ==> s[0] == ']')
            && (bytes != [] ==> |s| >= 2 && s[0] == '"' && s[1] != 'a' && s[1] != ',')
  {
    if bytes != [] {
      HexIsUpper(bytes[0]);
      ItemSplit(bytes, later);
    }
  }

  /** No mark starts in a text whose only quotes are followed by no comma. */
  lemma QuotesUnmarked(first: string, later: string, i: nat)
    requires i < |first| && (first[i] == '"' ==> i + 1 < |first| && first[i + 1] != ',')
    ensures !Mark(first + later, i)
  {
    MarkBehind(first, later, i);
  }

  const ADV_TYPE: string := "\",\"adv_type\":"
  const AD_DATA: string := ",\"ad_data\":["
  const LAST_RSSI: string := ",\"last_rssi\":"

  /** The first key behind a name has the mark at its start only. */
  lemma AdvTypeUnmarked(later: string, i: nat)
    requires 0 < i < |ADV_TYPE|
    ensures !Mark(ADV_TYPE + later, i)
  {
    MarkBehind(ADV_TYPE, later, i);
  }

  lemma AdDataUnmarked(later: string, i: nat)
    requires i < |AD_DATA|
    ensures !Mark(AD_DATA + later, i)
  {
    QuotesUnmarked(AD_DATA, later, i);
  }

  lemma LastRssiUnmarked(later: string, i: nat)
    requires i < |LAST_RSSI|
    ensures !Mark(LAST_RSSI + later, i)
  {
    QuotesUnmarked(LAST_RSSI, later, i);
  }

  /** The text behind a name: advertising type, advertising data, signal strength and more. */
  function BehindName(advType: nat, adData: seq<byte>, later: string): string {
    ADV_TYPE + (Decimal(advType) + (AD_DATA + (ItemsText(adData) + (LAST_RSSI + later))))
  }

  /** For the length of a name, no other mark follows the one at its start. */
  lemma BehindNameUnmarked(advType: nat, adData: seq<byte>, later: string, i: nat)
    requires 0 < i <= NAME_MAX
    ensures !Mark(BehindName(advType, adData, later), i)
  {
    hide Mark, ItemsText, Decimal;
    var d, items := Decimal(advType), ItemsText(adData);
    var s4 := LAST_RSSI + later;
    var s3 := items + s4;
    var s2 := AD_DATA + s3;
    var s1 := d + s2;
    var j1 := i - |ADV_TYPE|;
    ItemsStart(adData, s4);
    if j1 < 0 {
      AdvTypeUnmarked(s1, i);
    } else {
      MarkBehind(ADV_TYPE, s1, i);
      if j1 < |d| {
        QuotesUnmarked(d, s2, j1);
      } else {
        MarkBehind(d, s2, j1);
        UnmarkedFromData(items, s3, s4, later, adData, j1 - |d|);
      }
    }
  }

  lemma UnmarkedFromData(items: string, s3: string, s4: string, later: string, adData: seq<byte>, j: nat)
    requires items == ItemsText(adData) && s4 == LAST_RSSI + later && s3 == items + s4 && j <= 17
    ensures !Mark(AD_DATA + s3, j)
  {
    hide Mark, ItemsText;
    ItemsStart(adData, s4);
    if j < |AD_DATA| {
      AdDataUnmarked(s3, j);
    } else {
      MarkBehind(AD_DATA, s3, j);
      var k := j - |AD_DATA|;
      if k < |items| {
        ItemsUnmarked(adData, s4, k);
      } else {
        MarkBehind(items, s4, k);
        LastRssiUnmarked(later, k - |items|);
      }
    }
  }

  // ----- one field after the other -----

  /** Fields that read back unambiguously, whatever follows. */
  predicate Definite(f: Field) {
    NameOk(f.key) && !f.value.Str?
  }

  lemma FieldCancels(f: seq<Field>, g: seq<Field>, i: nat, r: string, q: string)
    requires i < |f| == |g| && Definite(f[i]) && Definite(g[i])
    requires FromField(f, i, r) == FromField(g, i, q)
    ensures f[i] == g[i] && FieldsText(f, i + 1) + r == FieldsText(g, i + 1) + q
  {
    hide FieldsText, ReadField, NameOk, KeyText, ValueText;
    NoDigitBehind(f, i + 1, r);
    NoDigitBehind(g, i + 1, q);
    FieldReadBack(f[i], FieldsText(f, i + 1) + r);
    FieldReadBack(g[i], FieldsText(g, i + 1) + q);
  }

  lemma NoDigitBehind(f: seq<Field>, i: nat, rest: string)
    requires 0 < i <= |f|
    ensures NoDigitAhead(FieldsText(f, i) + rest)
  {
    if i < |f| {
      FromFieldLed(f, i, rest);
    }
  }

  lemma CommaCancels(f: seq<Field>, g: seq<Field>, i: nat, r: string, q: string)
    requires 0 < i < |f| == |g| && FieldsText(f, i) + r == FieldsText(g, i) + q
    ensures FromField(f, i, r) == FromField(g, i, q)
  {
    hide FieldsText, FromField;
    FromFieldLed(f, i, r);
    FromFieldLed(g, i, q);
    Ahead(",", FromField(f, i, r));
    Ahead(",", FromField(g, i, q));
  }

  lemma {:induction false} FieldsCancel(f: seq<Field>, g: seq<Field>, i: nat, r: string, q: string)
    requires 0 < i <= |f| == |g| && forall k | i <= k < |f| :: Definite(f[k]) && Definite(g[k])
    requires FieldsText(f, i) + r == FieldsText(g, i) + q
    ensures f[i..] == g[i..] && r == q
    decreases |f| - i
  {
    hide FromField, Definite;
    if i == |f| {
      Ahead("}", r);
      Ahead("}", q);
    } else {
      CommaCancels(f, g, i, r, q);
      FieldCancels(f, g, i, r, q);
      FieldsCancel(f, g, i + 1, r, q);
      FirstAndRest(f, i);
      FirstAndRest(g, i);
    }
  }

  // ----- names -----

  /** The longer of two names cannot run on behind the end of the shorter one. */
  lemma NameCancelsInto(x: string, y: string, advType: nat, adData: seq<byte>, later: string, t: string)
    requires |x| <= |y| && EndsClearly(y) && Mark(t, 0)
    requires x + BehindName(advType, adData, later) == y + t
    ensures x == y && BehindName(advType, adData, later) == t
  {
    hide BehindName, Mark;
    var b, between := BehindName(advType, adData, later), y[|x|..];
    Overlap(x, b, y, t);
    if between != "" {
      assert between[0] == b[0] && y[|x|] == between[0];
      MarkStarts(advType, adData, later);
      MarkBehind(between, t, |between|);
      BehindNameUnmarked(advType, adData, later, |between|);
    }
  }

  lemma Overlap(x: string, b: string, y: string, t: string)
    requires |x| <= |y| && x + b == y + t
    ensures x == y[..|x|] && b == y[|x|..] + t
  {
    Ahead(x, b);
    Ahead(y, t);
    assert (y + t)[|x|..] == y[|x|..] + t;
    assert x == (x + b)[..|x|];
  }

  lemma MarkStarts(advType: nat, adData: seq<byte>, later: string)
    ensures var b := BehindName(advType, adData, later); b[0] == '"' && Mark(b, 0)
  {
    hide Decimal, ItemsText;
    var later' := Decimal(advType) + (AD_DATA + (ItemsText(adData) + (LAST_RSSI + later)));
    Ahead(ADV_TYPE, later');
  }

  /** The closing quote of a name and what follows it, from the fields of the node. */
  lemma BehindNameIs(n: Node, rest: string) returns (later: string)
    ensures "\"" + (FieldsText(FieldsOf(n), 3) + rest) == BehindName(n.advType, n.adData, later)
  {
    hide FieldsText, BehindName;
    later := BehindThird(FieldsOf(n), n.advType, n.adData, n.lastRssi, rest);
  }

  lemma BehindThird(f: seq<Field>, advType: nat, adData: seq<byte>, rssi: int, rest: string) returns (later: string)
    requires |f| == FIELDS && f[3] == Field("adv_type", Number(advType))
    requires f[4] == Field("ad_data", Bytes(adData)) && f[5] == Field("last_rssi", Number(rssi))
    ensures "\"" + (FieldsText(f, 3) + rest) == BehindName(advType, adData, later)
  {
    hide FieldsText, KeyText, Decimal, ItemsText;
    later := Signed(rssi) + (FieldsText(f, 6) + rest);
    FieldLed(f, 3, rest);
    FieldLed(f, 4, rest);
    FieldLed(f, 5, rest);
    KeysSpelt();
    Assembled(KeyText("adv_type"), KeyText("ad_data"), "," + KeyText("last_rssi"),
              Decimal(advType), ItemsText(adData), later);
  }

  lemma Assembled(k: string, l: string, m: string, d: string, items: string, later: string)
    ensures "\"" + (("," + k) + (d + (("," + l) + (("[" + items) + (m + later)))))
         == ("\"" + ("," + k)) + (d + ((("," + l) + "[") + (items + (m + later))))
  {
    Moved("\"", "," + k, d + (("," + l) + (("[" + items) + (m + later))));
    Moved("," + l, "[", items + (m + later));
    Moved("[", items, m + later);
  }

  lemma FieldLed(f: seq<Field>, i: nat, rest: string)
    requires 0 < i < |f|
    ensures FieldsText(f, i) + rest
         == ("," + KeyText(f[i].key)) + (ValueText(f[i].value) + (FieldsText(f, i + 1) + rest))
  {
    hide KeyText, ValueText;
    var key, value, behind := KeyText(f[i].key), ValueText(f[i].value), FieldsText(f, i + 1);
    Moved(("," + key) + value, behind, rest);
    Moved("," + key, value, behind + rest);
  }

  lemma KeysSpelt()
    ensures "\"" + ("," + KeyText("adv_type")) == ADV_TYPE
    ensures ("," + KeyText("ad_data")) + "[" == AD_DATA
    ensures "," + KeyText("last_rssi") == LAST_RSSI
  {
  }

  /** Equal texts from the name on have equal names and equal texts behind them. */
  lemma NamesCancel(n: Node, m: Node, r: string, q: string)
    requires EndsClearly(n.name) && EndsClearly(m.name)
    requires FromField(FieldsOf(n), 2, r) == FromField(FieldsOf(m), 2, q)
    ensures n.name == m.name && FieldsText(FieldsOf(n), 3) + r == FieldsText(FieldsOf(m), 3) + q
  {
    hide FieldsText, EndsClearly, BehindName, Mark;
    var f, g := FieldsOf(n), FieldsOf(m);
    var t, u := FieldsText(f, 3) + r, FieldsText(g, 3) + q;
    NameLed(n.name, t);
    NameLed(m.name, u);
    Ahead(KeyText("name") + "\"", n.name + ("\"" + t));
    Ahead(KeyText("name") + "\"", m.name + ("\"" + u));
    var later := BehindNameIs(n, r);
    var later' := BehindNameIs(m, q);
    MarkStarts(n.advType, n.adData, later);
    MarkStarts(m.advType, m.adData, later');
    if |n.name| <= |m.name| {
      NameCancelsInto(n.name, m.name, n.advType, n.adData, later, "\"" + u);
    } else {
      NameCancelsInto(m.name, n.name, m.advType, m.adData, later', "\"" + t);
    }
    Ahead("\"", t);
    Ahead("\"", u);
  }

  lemma NameLed(name: string, behind: string)
    ensures KeyText("name") + ValueText(Str(name)) + behind == (KeyText("name") + "\"") + (name + ("\"" + behind))
  {
    hide KeyText;
    assert ("\"" + name) + "\"" == "\"" + (name + "\"");
    Moved(KeyText("name"), "\"", name + "\"");
    Moved(KeyText("name") + "\"", name + "\"", behind);
    Moved(name, "\"", behind);
  }

  // ----- nodes and lists -----

  lemma FieldsDefinite(n: Node)
    ensures forall i | 0 <= i < FIELDS && i != 2 :: Definite(FieldsOf(n)[i])
  {
    NameOnly(n);
  }

  lemma NodesCancel(n: Node, m: Node, r: string, q: string)
    requires EndsClearly(n.name) && EndsClearly(m.name)
    requires NodeText(n) + r == NodeText(m) + q
    ensures n == m && r == q
  {
    hide FieldsText, FromField, Definite, EndsClearly;
    var f, g := FieldsOf(n), FieldsOf(m);
    FieldsDefinite(n);
    FieldsDefinite(m);
    ObjectLed(f, r);
    ObjectLed(g, q);
    FieldCancels(f, g, 0, r, q);
    CommaCancels(f, g, 1, r, q);
    FieldCancels(f, g, 1, r, q);
    CommaCancels(f, g, 2, r, q);
    NamesCancel(n, m, r, q);
    FieldsCancel(f, g, 3, r, q);
    SameFields(n, m);
  }

  lemma SameFields(n: Node, m: Node)
    requires FieldsOf(n)[0] == FieldsOf(m)[0] && FieldsOf(n)[1] == FieldsOf(m)[1] && n.name == m.name
    requires FieldsOf(n)[3..] == FieldsOf(m)[3..]
    ensures n == m
  {
    var f, g := FieldsOf(n), FieldsOf(m);
    assert forall i | 3 <= i < FIELDS :: f[i] == f[3..][i - 3] == g[i];
    assert f == g;
    NodeFromFields(n);
    NodeFromFields(m);
  }

  lemma {:induction false} ListsCancel(a: seq<Node>, b: seq<Node>, i: nat)
    requires i <= |a| && i <= |b|
    requires forall k | 0 <= k < |a| :: EndsClearly(a[k].name)
    requires forall k | 0 <= k < |b| :: EndsClearly(b[k].name)
    requires JoinedText(TextsOf(a), i) == JoinedText(TextsOf(b), i)
    ensures a[i..] == b[i..]
    decreases |a| - i
  {
    hide NodeText, EndsClearly;
    JoinedStarts(a, i);
    JoinedStarts(b, i);
    if i < |a| && i < |b| {
      var t, u := TextsOf(a), TextsOf(b);
      var r, q := if i + 1 < |t| then ", " else "", if i + 1 < |u| then ", " else "";
      Moved(t[i], r, JoinedText(t, i + 1));
      Moved(u[i], q, JoinedText(u, i + 1));
      NodesCancel(a[i], b[i], r + JoinedText(t, i + 1), q + JoinedText(u, i + 1));
      JoinedStarts(a, i + 1);
      JoinedStarts(b, i + 1);
      SeparatorsCancel(r, JoinedText(t, i + 1), q, JoinedText(u, i + 1));
      ListsCancel(a, b, i + 1);
      FirstAndRest(a, i);
      FirstAndRest(b, i);
    } else {
      assert i == |a| == |b|;
    }
  }

  lemma JoinedStarts(a: seq<Node>, i: nat)
    requires i <= |a|
    ensures var s := JoinedText(TextsOf(a), i); s != "" && s[0] == if i < |a| then '{' else ']'
  {
    hide NodeText;
    StartsOpen(a);
    if i < |a| {
      var t := TextsOf(a);
      Moved(t[i], if i + 1 < |t| then ", " else "", JoinedText(t, i + 1));
      Ahead(t[i], (if i + 1 < |t| then ", " else "") + JoinedText(t, i + 1));
    }
  }

  lemma SeparatorsCancel(r: string, t: string, q: string, u: string)
    requires r + t == q + u && r in {"", ", "} && q in {"", ", "}
    requires t != "" && t[0] != ',' && u != "" && u[0] != ','
    ensures r == q && t == u
  {
    Ahead(r, t);
    Ahead(q, u);
    assert "" + t == t && "" + u == u;
  }

  /** Lists whose names fit the program's buffer, or hold no quote, print the same text only if they are equal. */
  lemma PrintingIsInjective(a: seq<Node>, b: seq<Node>)
    requires forall k | 0 <= k < |a| :: EndsClearly(a[k].name)
    requires forall k | 0 <= k < |b| :: EndsClearly(b[k].name)
    requires ListText(a) == ListText(b)
    ensures a == b
  {
    hide JoinedText, EndsClearly;
    Ahead(HEADER, JoinedText(TextsOf(a), 0));
    Ahead(HEADER, JoinedText(TextsOf(b), 0));
    ListsCancel(a, b, 0);
    assert a[0..] == a && b[0..] == b;
  }

  /** The short name of an entry is visible exactly when there is no complete one, "undefined" standing for none. */
  lemma ShortNameTells(e: Entry, shortName: Option<string>)
    requires EndsClearly(NodeOf(e).name) && (shortName.Some? ==> EndsClearly(shortName.value))
    ensures NodeText(NodeOf(e.(shortName := shortName))) == NodeText(NodeOf(e)) <==>
            || e.completeName.Some? || e.shortName == shortName
            || (e.shortName == None && shortName == Some("undefined"))
            || (e.shortName == Some("undefined") && shortName == None)
  {
    hide NodeText, EndsClearly;
    var n, m := NodeOf(e), NodeOf(e.(shortName := shortName));
    UndefinedEndsClearly();
    assert m.name == n.name || (shortName.Some? && m.name == shortName.value) || m.name == "undefined";
    if NodeText(n) == NodeText(m) {
      NodesCancel(n, m, "", "");
    }
  }

  lemma UndefinedEndsClearly()
    ensures EndsClearly("undefined")
  {
  }

  // ----- longer names with quotes -----

  /** The text of a node up to its name. */
  function BeforeName(n: Node): string {
    var f := FieldsOf(n);
    "{" + (KeyText("addr") + ValueText(f[0].value) + ("," + (KeyText("addr_type") + ValueText(f[1].value)
    + ("," + (KeyText("name") + "\"")))))
  }

  /** The text of a node behind its name. */
  function AfterName(n: Node): string {
    "\"" + FieldsText(FieldsOf(n), 3)
  }

  lemma NameInside(n: Node)
    ensures NodeText(n) == BeforeName(n) + (n.name + AfterName(n))
  {
    hide KeyText, FieldsText;
    var f := FieldsOf(n);
    var k0, k1 := KeyText("addr") + ValueText(f[0].value), KeyText("addr_type") + ValueText(f[1].value);
    var k2 := KeyText("name") + "\"";
    var tail := n.name + AfterName(n);
    FieldText(f, 0);
    FieldText(f, 1);
    FieldText(f, 2);
    NameLed(n.name, FieldsText(f, 3));
    assert FieldsText(f, 0) == k0 + ("," + (k1 + ("," + (k2 + tail))));
    Nested(k0, k1, k2, tail);
  }

  lemma FieldText(f: seq<Field>, i: nat)
    requires i < |f|
    ensures FieldsText(f, i)
         == (if i > 0 then "," else "") + (KeyText(f[i].key) + ValueText(f[i].value) + FieldsText(f, i + 1))
    ensures i == 0 ==> FieldsText(f, i) == KeyText(f[i].key) + ValueText(f[i].value) + FieldsText(f, i + 1)
  {
    hide KeyText, ValueText;
    var lead, later := if i > 0 then "," else "", FieldsText(f, i + 1);
    var key, value := KeyText(f[i].key), ValueText(f[i].value);
    Moved(lead, key, value);
    Moved(lead, key + value, later);
    assert "" + ((key + value) + later) == (key + value) + later;
  }

  lemma Nested(a: string, b: string, c: string, t: string)
    ensures "{" + (a + ("," + (b + ("," + (c + t))))) == ("{" + (a + ("," + (b + ("," + c))))) + t
  {
  }

  /** One node whose name spells out the end of `a` and the beginning of `b`. */
  function Merged(a: Node, b: Node): Node {
    b.(addr := a.addr, addrType := a.addrType, name := a.name + (AfterName(a) + (", " + (BeforeName(b) + b.name))))
  }

  /** A list of two nodes and a list of one print the same text, so the condition on long names is needed. */
  lemma PrintingCollides(a: Node, b: Node)
    ensures ListText([a, b]) == ListText([Merged(a, b)]) && [a, b] != [Merged(a, b)]
    ensures !EndsClearly(Merged(a, b).name)
  {
    hide BeforeName, AfterName, NodeText, EndsClearly;
    var m := Merged(a, b);
    NameInside(a);
    NameInside(b);
    NameInside(m);
    MergedParts(a, b);
    var t, u := TextsOf([a, b]), TextsOf([m]);
    assert t[0] == NodeText(a) && t[1] == NodeText(b) && u[0] == NodeText(m);
    MergedText(BeforeName(a), a.name, AfterName(a), BeforeName(b), b.name, AfterName(b));
    assert JoinedText(t, 1) == t[1] + "" + "]}\n";
    assert JoinedText(t, 0) == t[0] + ", " + (t[1] + "" + "]}\n");
    assert JoinedText(u, 0) == u[0] + "" + "]}\n";
  }

  lemma MergedParts(a: Node, b: Node)
    ensures BeforeName(Merged(a, b)) == BeforeName(a) && AfterName(Merged(a, b)) == AfterName(b)
    ensures !EndsClearly(Merged(a, b).name)
  {
    hide FieldsText, KeyText, ValueText;
    var m := Merged(a, b);
    SameTail(FieldsOf(m), FieldsOf(b), 3);
    LongAfterName(a);
    assert m.name[|a.name|] == '"';
  }

  lemma LongAfterName(a: Node)
    ensures |AfterName(a)| > NAME_MAX && AfterName(a)[0] == '"'
  {
    hide KeyText, ValueText;
    var later := BehindNameIs(a, "");
    hide BehindName;
    assert AfterName(a) == BehindName(a.advType, a.adData, later) by {
      assert FieldsText(FieldsOf(a), 3) + "" == FieldsText(FieldsOf(a), 3);
    }
    BehindNameLong(a.advType, a.adData, later);
  }

  lemma BehindNameLong(advType: nat, adData: seq<byte>, later: string)
    ensures |BehindName(advType, adData, later)| > NAME_MAX && BehindName(advType, adData, later)[0] == '"'
  {
    hide ItemsText, Decimal;
    ItemsStart(adData, later);
  }

  lemma {:induction false} SameTail(f: seq<Field>, g: seq<Field>, i: nat)
    requires i <= |f| == |g| && f[i..] == g[i..]
    ensures FieldsText(f, i) == FieldsText(g, i)
    decreases |f| - i
  {
    hide KeyText, ValueText;
    if i < |f| {
      assert f[i] == f[i..][0] && g[i] == g[i..][0];
      assert f[i + 1..] == f[i..][1..] && g[i + 1..] == g[i..][1..];
      SameTail(f, g, i + 1);
    }
  }

  lemma MergedText(ba: string, na: string, aa: string, bb: string, nb: string, ab: string)
    ensures (ba + (na + aa)) + ", " + ((bb + (nb + ab)) + "" + "]}\n")
         == (ba + ((na + (aa + (", " + (bb + nb)))) + ab)) + "" + "]}\n"
  {
  }
}
