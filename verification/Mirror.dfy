/**
 The request printer of res-mirror.c: fifteen guarded `snprintf` appends into a buffer of
 `limit` + 1 bytes, where `limit` is REST_MAX_CHUNK_SIZE. `snprintf` returns the untruncated
 length, so the position runs ahead of the buffer once a section is cut, and every later
 section is skipped by its guard.
 */
module Mirror {
  import opened Text

  datatype BlockOption = BlockOption(num: nat, more: bool, size: nat)

  /** What the engine's getters report; an absent string option is empty. */
  datatype Message = Message(
    contentFormat: Option<nat>, accept: Option<nat>, maxAge: Option<nat>, size1: Option<nat>,
    uriHost: string, uriPath: string, uriQuery: string, locationPath: string, locationQuery: string,
    token: seq<byte>, observe: Option<nat>, etag: Option<seq<byte>>,
    block2: Option<BlockOption>, block1: Option<BlockOption>, payload: string)

  const TRUNCATED: char := 0xBB as char

  // ----- the text of an unbounded printer -----

  function NumberLine(name: string, value: Option<nat>): string {
    if value.Some? then name + Decimal(value.value) + "\n" else ""
  }

  /** `%.*s` stops at the length or at a NUL. */
  function TextLine(name: string, text: string): string {
    if text != "" then name + CString(text) + "\n" else ""
  }

  function HexLine(name: string, bytes: seq<byte>): string {
    name + HexString(bytes) + "\n"
  }

  function BlockLine(name: string, block: Option<BlockOption>): string {
    if block.Some? then
      var BlockOption(num, more, size) := block.value;
      name + Decimal(num) + (if more then "+" else "") + " (" + Decimal(size) + ")\n"
    else ""
  }

  const SECTIONS: nat := 15
  const TOKEN_SECTION: nat := 9
  const ETAG_SECTION: nat := 11

  /** What is printed for the options in turn; nothing for an absent one. */
  function Section(m: Message, i: nat): string
    requires i < SECTIONS
  {
    if i == 0 then NumberLine("CF ", m.contentFormat)
    else if i == 1 then NumberLine("Ac ", m.accept)
    else if i == 2 then NumberLine("MA ", m.maxAge)
    else if i == 3 then NumberLine("SZ ", m.size1)
    else if i == 4 then TextLine("UH ", m.uriHost)
    else if i == 5 then TextLine("UP ", m.uriPath)
    else if i == 6 then TextLine("UQ ", m.uriQuery)
    else if i == 7 then TextLine("LP ", m.locationPath)
    else if i == 8 then TextLine("LQ ", m.locationQuery)
    else if i == TOKEN_SECTION then (if m.token != [] then HexLine("To 0x", m.token) else "")
    else if i == 10 then NumberLine("Ob ", m.observe)
    else if i == ETAG_SECTION then (if m.etag.Some? then HexLine("ET 0x", m.etag.value) else "")
    else if i == 12 then BlockLine("B2 ", m.block2)
    else if i == 13 then BlockLine("B1 ", m.block1)
    else CString(m.payload)
  }

  /** The first i sections behind one another. */
  function Flatten(m: Message, i: nat): string
    requires i <= SECTIONS
  {
    if i == 0 then "" else Flatten(m, i - 1) + Section(m, i - 1)
  }

  /** The whole text, however long. */
  function Ideal(m: Message): string {
    Flatten(m, SECTIONS)
  }

  /** The position behind the first i sections: sections behind one that passes the limit do not count. */
  function Reach(m: Message, i: nat, limit: nat): nat
    requires i <= SECTIONS
  {
    if i == 0 then 0
    else
      var before := Reach(m, i - 1, limit);
      if before <= limit then before + |Section(m, i - 1)| else before
  }

  lemma {:induction false} ReachIsLength(m: Message, i: nat, limit: nat)
    requires i <= SECTIONS
    ensures Reach(m, i, limit) <= |Flatten(m, i)|
    ensures Reach(m, i, limit) <= limit || |Flatten(m, i)| <= limit ==> Reach(m, i, limit) == |Flatten(m, i)|
  {
    hide Section;
    if i > 0 {
      ReachIsLength(m, i - 1, limit);
    }
  }

  /** Does every append of a hex line starting at `start` get a size that is not negative? */
  predicate HexInside(start: nat, bytes: seq<byte>, limit: nat) {
    start <= limit ==> start + 5 + 2 * |bytes| <= limit + 1
  }

  /** The guard covers a whole hex section, so its later appends rely on the room being there. */
  predicate HexFits(m: Message, limit: nat) {
    && (m.token != [] ==> HexInside(Reach(m, TOKEN_SECTION, limit), m.token, limit))
    && (m.etag.Some? ==> HexInside(Reach(m, ETAG_SECTION, limit), m.etag.value, limit))
  }

  /** In terms of the unbounded text: the room behind what is printed before the token and before the ETag. */
  lemma HexFitsByLength(m: Message, limit: nat)
    ensures HexFits(m, limit) <==>
            && (m.token != [] ==> HexInside(|Flatten(m, TOKEN_SECTION)|, m.token, limit))
            && (m.etag.Some? ==> HexInside(|Flatten(m, ETAG_SECTION)|, m.etag.value, limit))
  {
    hide Section;
    ReachIsLength(m, TOKEN_SECTION, limit);
    ReachIsLength(m, ETAG_SECTION, limit);
  }

  lemma {:induction false} FlattenGrows(m: Message, i: nat, j: nat)
    requires i <= j <= SECTIONS
    ensures Flatten(m, i) <= Flatten(m, j)
    decreases j
  {
    hide Section;
    if i < j {
      FlattenGrows(m, i, j - 1);
    }
  }

  /** A text that fits never runs out of room. */
  lemma ShortTextFits(m: Message, limit: nat)
    requires |Ideal(m)| <= limit
    ensures HexFits(m, limit)
  {
    hide Flatten, Reach;
    SectionFits(m, TOKEN_SECTION, limit);
    SectionFits(m, ETAG_SECTION, limit);
  }

  lemma SectionFits(m: Message, i: nat, limit: nat)
    requires i < SECTIONS && |Ideal(m)| <= limit
    ensures Reach(m, i, limit) + |Section(m, i)| <= limit
  {
    hide Section;
    FlattenGrows(m, i, i + 1);
    FlattenGrows(m, i + 1, SECTIONS);
    ReachIsLength(m, i, limit);
  }

  // ----- the printer -----

  /** The buffer holds the text up to the limit, the position counts all of it. */
  ghost predicate Printed(buffer: string, limit: nat, strpos: nat, text: string) {
    && |buffer| == limit + 1
    && strpos == |text|
    && buffer[..Min(strpos, limit)] == text[..Min(strpos, limit)]
  }

  /** The same for the first i sections, of which some may have been skipped. */
  ghost predicate Holds(buffer: string, limit: nat, strpos: nat, m: Message, i: nat)
    requires i <= SECTIONS
  {
    && |buffer| == limit + 1
    && strpos == Reach(m, i, limit)
    && Min(strpos, limit) <= |Flatten(m, i)|
    && buffer[..Min(strpos, limit)] == Flatten(m, i)[..Min(strpos, limit)]
  }

  /** One `snprintf(buffer + strpos, limit - strpos + 1, ...)`. */
  method Print(buffer: array<char>, limit: nat, strpos: nat, text: string, ghost done: string) returns (next: nat)
    requires Printed(buffer[..], limit, strpos, done) && strpos <= limit + 1
    modifies buffer
    ensures Printed(buffer[..], limit, next, done + text)
  {
    ghost var before := buffer[..];
    var n := Snprintf(buffer, strpos, limit - strpos + 1, text);
    next := strpos + n;
    if strpos <= limit {
      AppendCut(before, buffer[..], done, text, limit);
    }
  }

  lemma SectionAdded(m: Message, i: nat)
    requires i < SECTIONS
    ensures Flatten(m, i + 1) == Flatten(m, i) + Section(m, i)
  {
  }

  /** A section of a single append, behind its guard; the section of an absent option is empty. */
  method Append(buffer: array<char>, limit: nat, strpos: nat, present: bool, section: string,
                ghost m: Message, ghost i: nat)
    returns (next: nat)
    requires i < SECTIONS && section == Section(m, i) && (!present ==> section == "")
    requires Holds(buffer[..], limit, strpos, m, i)
    modifies buffer
    ensures Holds(buffer[..], limit, next, m, i + 1)
  {
    hide Section, Flatten;
    next := strpos;
    SectionAdded(m, i);
    if strpos <= limit && present {
      ReachIsLength(m, i, limit);
      next := Print(buffer, limit, strpos, section, Flatten(m, i));
    }
  }

  /** The loop over the bytes; it stops short if an append would get a negative size. */
  method PrintHex(buffer: array<char>, limit: nat, strpos: nat, bytes: seq<byte>, ghost done: string)
    returns (next: nat, inside: bool)
    requires Printed(buffer[..], limit, strpos, done)
    modifies buffer
    ensures inside <==> bytes == [] || strpos + 2 * |bytes| - 2 <= limit + 1
    ensures inside ==> Printed(buffer[..], limit, next, done + HexString(bytes))
  {
    next, inside := strpos, true;
    ghost var text := done;
    assert done + HexString([]) == done;
    for index := 0 to |bytes|
      invariant next == strpos + 2 * index
      invariant index > 0 ==> next - 2 <= limit + 1
      invariant text == done + HexString(bytes[..index])
      invariant Printed(buffer[..], limit, next, text)
    {
      if limit - next + 1 < 0 {
        return next, false;
      }
      next := Print(buffer, limit, next, Hex(bytes[index]), text);
      HexGrows(bytes, index, done);
      text := text + Hex(bytes[index]);
    }
    assert bytes[..|bytes|] == bytes;
  }

  lemma HexGrows(bytes: seq<byte>, index: nat, done: string)
    requires index < |bytes|
    ensures done + HexString(bytes[..index + 1]) == done + HexString(bytes[..index]) + Hex(bytes[index])
  {
    assert bytes[..index + 1][..index] == bytes[..index];
  }

  /**
   A section of a name, two digits for each byte and a line end, behind one guard. `inside` is
   false if an append is reached with a negative size, where nothing more is known.
   */
  method AppendHex(buffer: array<char>, limit: nat, strpos: nat, present: bool, name: string, bytes: seq<byte>,
                   ghost m: Message, ghost i: nat)
    returns (next: nat, inside: bool)
    requires i < SECTIONS && |name| == 5 && Section(m, i) == if present then HexLine(name, bytes) else ""
    requires Holds(buffer[..], limit, strpos, m, i)
    modifies buffer
    ensures inside <==> (present ==> HexInside(strpos, bytes, limit))
    ensures inside ==> Holds(buffer[..], limit, next, m, i + 1)
  {
    hide Section, HexString;
    next, inside := strpos, true;
    if strpos <= limit && present {
      ReachIsLength(m, i, limit);
      next, inside := PrintHexLine(buffer, limit, strpos, name, bytes, Flatten(m, i));
    } else {
      assert Flatten(m, i) <= Flatten(m, i + 1);
    }
  }

  method PrintHexLine(buffer: array<char>, limit: nat, strpos: nat, name: string, bytes: seq<byte>, ghost done: string)
    returns (next: nat, inside: bool)
    requires Printed(buffer[..], limit, strpos, done) && strpos <= limit && |name| == 5
    modifies buffer
    ensures inside <==> HexInside(strpos, bytes, limit)
    ensures inside ==> Printed(buffer[..], limit, next, done + HexLine(name, bytes))
  {
    next := Print(buffer, limit, strpos, name, done);
    next, inside := PrintHex(buffer, limit, next, bytes, done + name);
    if inside {
      if limit - next + 1 < 0 {
        return next, false;
      }
      next := Print(buffer, limit, next, "\n", done + name + HexString(bytes));
      assert done + name + HexString(bytes) + "\n" == done + HexLine(name, bytes);
    }
  }

  /**
   The handler. `size1` is the Size1 header, which repeats the position and is also the payload
   length handed to the engine.
   */
  method AnyHandler(m: Message, buffer: array<char>, limit: nat) returns (size1: nat, inside: bool)
    requires limit > 0 && buffer.Length == limit + 1
    modifies buffer
    ensures inside <==> HexFits(m, limit)
    ensures |Ideal(m)| < limit ==> inside && size1 == |Ideal(m)| && buffer[..size1] == Ideal(m)
    ensures inside && |Ideal(m)| >= limit ==>
              && limit <= size1 == Reach(m, SECTIONS, limit) <= |Ideal(m)|
              && buffer[..limit] == Ideal(m)[..limit - 1] + [0xBB as char]
  {
    hide Flatten, Reach, HexFits;
    if |Ideal(m)| < limit {
      ShortTextFits(m, limit);
    }
    var strpos := PrintNumberOptions(m, buffer, limit);
    strpos := PrintStringOptions(m, buffer, limit, strpos);
    strpos, inside := PrintOpaqueOptions(m, buffer, limit, strpos);
    if !inside {
      return strpos, false;
    }
    strpos := PrintBlocksAndPayload(m, buffer, limit, strpos);
    ghost var printed := buffer[..];
    if strpos >= limit {
      buffer[limit - 1] := TRUNCATED;
      assert buffer[..limit] == printed[..limit][..limit - 1] + [TRUNCATED];
      assert printed[..limit] == Ideal(m)[..limit];
    }
    ReachIsLength(m, SECTIONS, limit);
    size1 := strpos;
  }

  /** Content-Format to Size1. */
  method PrintNumberOptions(m: Message, buffer: array<char>, limit: nat) returns (strpos: nat)
    requires limit > 0 && buffer.Length == limit + 1
    modifies buffer
    ensures Holds(buffer[..], limit, strpos, m, 4)
  {
    strpos := 0;
    strpos := Append(buffer, limit, strpos, m.contentFormat.Some?, NumberLine("CF ", m.contentFormat), m, 0);
    strpos := Append(buffer, limit, strpos, m.accept.Some?, NumberLine("Ac ", m.accept), m, 1);
    strpos := Append(buffer, limit, strpos, m.maxAge.Some?, NumberLine("MA ", m.maxAge), m, 2);
    strpos := Append(buffer, limit, strpos, m.size1.Some?, NumberLine("SZ ", m.size1), m, 3);
  }

  /** Uri-Host to Location-Query. */
  method PrintStringOptions(m: Message, buffer: array<char>, limit: nat, start: nat) returns (strpos: nat)
    requires Holds(buffer[..], limit, start, m, 4)
    modifies buffer
    ensures Holds(buffer[..], limit, strpos, m, TOKEN_SECTION)
  {
    hide Holds;
    strpos := Append(buffer, limit, start, m.uriHost != "", TextLine("UH ", m.uriHost), m, 4);
    strpos := Append(buffer, limit, strpos, m.uriPath != "", TextLine("UP ", m.uriPath), m, 5);
    strpos := Append(buffer, limit, strpos, m.uriQuery != "", TextLine("UQ ", m.uriQuery), m, 6);
    strpos := Append(buffer, limit, strpos, m.locationPath != "", TextLine("LP ", m.locationPath), m, 7);
    strpos := Append(buffer, limit, strpos, m.locationQuery != "", TextLine("LQ ", m.locationQuery), m, 8);
  }

  /** Token, Observe and ETag. */
  method PrintOpaqueOptions(m: Message, buffer: array<char>, limit: nat, start: nat) returns (strpos: nat, inside: bool)
    requires Holds(buffer[..], limit, start, m, TOKEN_SECTION)
    modifies buffer
    ensures inside <==> HexFits(m, limit)
    ensures inside ==> Holds(buffer[..], limit, strpos, m, ETAG_SECTION + 1)
  {
    strpos, inside := AppendHex(buffer, limit, start, m.token != [], "To 0x", m.token, m, 9);
    if !inside {
      return;
    }
    strpos := Append(buffer, limit, strpos, m.observe.Some?, NumberLine("Ob ", m.observe), m, 10);
    var etag := if m.etag.Some? then m.etag.value else [];
    strpos, inside := AppendHex(buffer, limit, strpos, m.etag.Some?, "ET 0x", etag, m, 11);
  }

  /** Block2, Block1 and the payload. */
  method PrintBlocksAndPayload(m: Message, buffer: array<char>, limit: nat, start: nat) returns (strpos: nat)
    requires Holds(buffer[..], limit, start, m, ETAG_SECTION + 1)
    modifies buffer
    ensures Holds(buffer[..], limit, strpos, m, SECTIONS)
  {
    strpos := Append(buffer, limit, start, m.block2.Some?, BlockLine("B2 ", m.block2), m, 12);
    strpos := Append(buffer, limit, strpos, m.block1.Some?, BlockLine("B1 ", m.block1), m, 13);
    strpos := Append(buffer, limit, strpos, m.payload != "", CString(m.payload), m, 14);
  }

  // ----- reading the text back -----

  /** Where the two digits of each byte stand in the text, for a hex line behind `before`. */
  predicate DigitsBehind(text: string, before: string, bytes: seq<byte>) {
    var start := |before| + 5;
    start + 2 * |bytes| <= |text| && HexDecode(text[start..start + 2 * |bytes|]) == Some(bytes)
  }

  lemma HexLineReadable(text: string, before: string, name: string, bytes: seq<byte>)
    requires |name| == 5 && before + HexLine(name, bytes) <= text
    ensures DigitsBehind(text, before, bytes)
  {
    var start, line := |before| + 5, before + HexLine(name, bytes);
    assert line[start..start + 2 * |bytes|] == HexString(bytes);
    assert text[..|line|] == line;
    assert text[start..start + 2 * |bytes|] == line[start..start + 2 * |bytes|];
    HexStringRoundTrip(bytes);
  }

  /** Token and ETag can be read back from the printed text. */
  lemma OpaqueOptionsReadable(m: Message)
    ensures m.token != [] ==> DigitsBehind(Ideal(m), Flatten(m, TOKEN_SECTION), m.token)
    ensures m.etag.Some? ==> DigitsBehind(Ideal(m), Flatten(m, ETAG_SECTION), m.etag.value)
  {
    if m.token != [] {
      FlattenGrows(m, TOKEN_SECTION + 1, SECTIONS);
      HexLineReadable(Ideal(m), Flatten(m, TOKEN_SECTION), "To 0x", m.token);
    }
    if m.etag.Some? {
      FlattenGrows(m, ETAG_SECTION + 1, SECTIONS);
      HexLineReadable(Ideal(m), Flatten(m, ETAG_SECTION), "ET 0x", m.etag.value);
    }
  }

  /** A request with a path, a query and a token. */
  function Addressed(path: string, query: string, token: seq<byte>): Message {
    Message(None, None, None, None, "", path, query, "", "", token, None, None, None, None, "")
  }

  /** Where the token line of such a request starts: the query line is skipped if the path passes the limit. */
  function TokenStart(path: string, query: string, limit: nat): nat {
    var afterPath := |path| + 4;
    if afterPath <= limit && query != "" then afterPath + |query| + 4 else afterPath
  }

  /** For such a request, the lengths that leave room for the token line. */
  lemma RoomForToken(path: string, query: string, token: seq<byte>, limit: nat)
    requires path != "" && NUL !in path && NUL !in query && token != []
    ensures HexFits(Addressed(path, query, token), limit) <==> HexInside(TokenStart(path, query, limit), token, limit)
  {
    var m := Addressed(path, query, token);
    CStringScan(path, |path|);
    CStringScan(query, |query|);
    assert Section(m, 5) == "UP " + path + "\n";
    assert Section(m, 6) == if query == "" then "" else "UQ " + query + "\n";
    assert Reach(m, 1, limit) == Reach(m, 2, limit) == Reach(m, 3, limit) == 0;
    assert Reach(m, 4, limit) == Reach(m, 5, limit) == 0;
    assert Reach(m, 6, limit) == |path| + 4;
    assert Reach(m, 7, limit) == TokenStart(path, query, limit);
    assert Reach(m, 9, limit) == Reach(m, 8, limit) == Reach(m, 7, limit);
  }

  /** The path the server activates the resource at. */
  const PATH: string := "debug/mirror"

  /**
   With tokens of up to 8 bytes and a limit of at least 64, a request without a query always
   has room; one with a query has, unless the line of the query ends within the limit and
   the token line does not.
   */
  lemma RoomAtDeployedPath(query: string, token: seq<byte>, limit: nat)
    requires NUL !in query && 0 < |token| <= 8 && limit >= 64
    ensures HexFits(Addressed(PATH, query, token), limit) <==>
            query == "" || 20 + |query| > limit || 20 + |query| + 5 + 2 * |token| <= limit + 1
  {
    RoomForToken(PATH, query, token, limit);
  }

  /** For example, a query of 40 characters and a token of 8 bytes at limit 64. */
  lemma NoRoomForToken(query: string, token: seq<byte>)
    requires |query| == 40 && NUL !in query && |token| == 8
    ensures !HexFits(Addressed(PATH, query, token), 64)
  {
    RoomAtDeployedPath(query, token, 64);
  }
}
