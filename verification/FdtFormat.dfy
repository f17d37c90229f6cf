/**
 The flattened device tree format: a specification parser for finished blobs (sections 5.2 to 5.5 of the
 Devicetree Specification v0.4), and proofs that it inverts the encoding of tokens and trees.
 */
module FdtFormat {
  import opened Base

  const MAGIC: u32 := 0xd00dfeed
  const HEADER_SIZE: nat := 40
  const RESERVE_MAP_SIZE: nat := 16
  const VERSION: u32 := 17
  const LAST_COMPATIBLE_VERSION: u32 := 16

  const BEGIN_NODE: u32 := 1
  const END_NODE: u32 := 2
  const PROPERTY: u32 := 3
  const END: u32 := 9

  type Bytes = seq<u8>

  datatype Property = Property(name: Bytes, data: Bytes)

  datatype Node = Node(name: Bytes, properties: seq<Property>, children: seq<Node>)

  datatype Token = Begin(name: Bytes) | Value(offset: u32, data: Bytes) | Close

  // ----- Bytes -----

  function Be32(x: u32): (b: Bytes)
    ensures |b| == 4
  {
    [x / 0x100_0000, x / 0x1_0000 % 0x100, x / 0x100 % 0x100, x % 0x100]
  }

  function ReadBe32(b: Bytes): u32
    requires |b| >= 4
  {
    var b0: nat, b1: nat, b2: nat, b3: nat := b[0], b[1], b[2], b[3];
    b0 * 0x100_0000 + b1 * 0x1_0000 + b2 * 0x100 + b3
  }

  lemma Be32RoundTrip(x: u32, rest: Bytes)
    ensures ReadBe32(Be32(x) + rest) == x
  {
    assert x == x / 0x100_0000 * 0x100_0000 + x / 0x1_0000 % 0x100 * 0x1_0000 + x / 0x100 % 0x100 * 0x100 + x % 0x100;
  }

  function PaddedLength(n: nat): nat { (n + 3) / 4 * 4 }

  function Zeros(n: nat): (z: Bytes)
    ensures |z| == n && forall i :: 0 <= i < n ==> z[i] == 0
  {
    seq(n, _ => 0)
  }

  /** Bytes followed by zeros up to a multiple of four. */
  function Pad(b: Bytes): (p: Bytes)
    ensures |p| == PaddedLength(|b|) && |b| <= |p| < |b| + 4 && p[..|b|] == b
    ensures |p| % 4 == 0 && forall i :: |b| <= i < |p| ==> p[i] == 0
  {
    b + Zeros(PaddedLength(|b|) - |b|)
  }

  /** The C string that starts at an offset: the bytes up to the first zero, or to the end. */
  function CStringAt(b: Bytes, at: nat): (s: Bytes)
    requires at <= |b|
    ensures at + |s| <= |b| && s == b[at..at + |s|] && 0 !in s
    ensures at + |s| < |b| ==> b[at + |s|] == 0
    decreases |b| - at
  {
    if at == |b| || b[at] == 0 then [] else [b[at]] + CStringAt(b, at + 1)
  }

  /** A name, its terminator, and anything behind: the name is what is read. */
  lemma {:induction false} CStringOf(b: Bytes, at: nat, name: Bytes)
    requires at + |name| < |b| && b[at..at + |name|] == name && b[at + |name|] == 0 && 0 !in name
    ensures CStringAt(b, at) == name
    decreases |name|
  {
    if name != [] {
      assert b[at] == name[0];
      assert b[at + 1..at + |name|] == name[1..];
      CStringOf(b, at + 1, name[1..]);
    }
  }

  // ----- Tokens -----

  predicate ValidToken(t: Token) {
    (t.Begin? ==> 0 !in t.name) && (t.Value? ==> |t.data| < U32)
  }

  function EncodedLength(t: Token): nat {
    match t
    case Begin(name) => PaddedLength(4 + |name| + 1)
    case Value(_, data) => PaddedLength(12 + |data|)
    case Close => 4
  }

  function Encode(t: Token): (b: Bytes)
    requires ValidToken(t)
    ensures |b| == EncodedLength(t) && 4 <= |b| && |b| % 4 == 0
  {
    match t
    case Begin(name) => Pad(Be32(BEGIN_NODE) + name + [0])
    case Value(offset, data) => Pad(Be32(PROPERTY) + Be32(|data|) + Be32(offset) + data)
    case Close => Be32(END_NODE)
  }

  /** The bytes of a token as the format lays them down: a big-endian tag, the contents, zeros up to a full word. */
  lemma TokenBytes(t: Token)
    requires ValidToken(t)
    ensures t == Close ==> Encode(t) == [0, 0, 0, 2]
    ensures t.Begin? ==>
              && Encode(t)[..4] == [0, 0, 0, 1] && Encode(t)[4..4 + |t.name|] == t.name
              && |Encode(t)| < 4 + |t.name| + 5 && forall i :: 4 + |t.name| <= i < |Encode(t)| ==> Encode(t)[i] == 0
    ensures t.Value? ==>
              && Encode(t)[..4] == [0, 0, 0, 3] && ReadBe32(Encode(t)[4..]) == |t.data| && ReadBe32(Encode(t)[8..]) == t.offset
              && Encode(t)[12..12 + |t.data|] == t.data
              && |Encode(t)| < 12 + |t.data| + 4 && forall i :: 12 + |t.data| <= i < |Encode(t)| ==> Encode(t)[i] == 0
    ensures Be32(END) == [0, 0, 0, 9]
  {
    match t
    case Close =>
    case Begin(name) => BeginBytesAre(name);
    case Value(offset, data) => ValueBytesAre(offset, data);
  }

  lemma BeginBytesAre(name: Bytes)
    requires 0 !in name
    ensures var b := Encode(Begin(name));
            && b[..4] == [0, 0, 0, 1] && b[4..4 + |name|] == name && |b| < 4 + |name| + 5
            && forall i :: 4 + |name| <= i < |b| ==> b[i] == 0
  {
    var body := Be32(BEGIN_NODE) + name + [0];
    var b := Pad(body);
    assert b[..4] == body[..4] == [0, 0, 0, 1] by { assert b[..|body|] == body; }
    assert b[4..4 + |name|] == body[4..4 + |name|] == name by { assert b[..|body|] == body; }
    assert b[4 + |name|] == body[4 + |name|] == 0 by { assert b[..|body|] == body; }
  }

  lemma ValueBytesAre(offset: u32, data: Bytes)
    requires |data| < U32
    ensures var b := Encode(Value(offset, data));
            && b[..4] == [0, 0, 0, 3] && ReadBe32(b[4..]) == |data| && ReadBe32(b[8..]) == offset
            && b[12..12 + |data|] == data && |b| < 12 + |data| + 4
            && forall i :: 12 + |data| <= i < |b| ==> b[i] == 0
  {
    var words := Be32(PROPERTY) + Be32(|data|) + Be32(offset);
    var body := words + data;
    var b := Pad(body);
    assert b[..12] == words && b[12..12 + |data|] == body[12..] == data by { assert b[..|body|] == body; }
    ThreeWords(PROPERTY, |data|, offset, b);
    assert Be32(PROPERTY) == [0, 0, 0, 3];
    assert b[..4] == words[..4] by { assert b[..12][..4] == b[..4]; }
  }

  function EncodeAll(ts: seq<Token>): Bytes
    requires forall t :: t in ts ==> ValidToken(t)
  {
    if ts == [] then [] else Encode(ts[0]) + EncodeAll(ts[1..])
  }

  /** Splits off the first `n` bytes and the zero padding behind them. */
  function TakePadded(b: Bytes, n: nat): Option<(Bytes, Bytes)> {
    var padded := PaddedLength(n);
    if padded > |b| || b[n..padded] != Zeros(padded - n) then None
    else Some((b[..n], b[padded..]))
  }

  /** One token and the bytes behind it. */
  function ParseToken(b: Bytes): (r: Option<(Token, Bytes)>)
    ensures r.Some? ==> |r.value.1| < |b|
  {
    if |b| < 4 then None
    else if ReadBe32(b) == BEGIN_NODE then
      var name := CStringAt(b, 4);
      if 4 + |name| == |b| then None
      else match TakePadded(b, 4 + |name| + 1)
           case None => None
           case Some((_, rest)) => Some((Begin(name), rest))
    else if ReadBe32(b) == END_NODE then Some((Close, b[4..]))
    else if ReadBe32(b) == PROPERTY then
      if |b| < 12 then None
      else match TakePadded(b, 12 + ReadBe32(b[4..]))
           case None => None
           case Some((head, rest)) => Some((Value(ReadBe32(b[8..]), head[12..]), rest))
    else None
  }

  /** All tokens of a structure block, which must end with the end token. */
  function ParseTokens(b: Bytes): Option<seq<Token>>
    decreases |b|
  {
    if |b| >= 4 && ReadBe32(b) == END then (if |b| == 4 then Some([]) else None)
    else
      match ParseToken(b)
      case None => None
      case Some((token, rest)) =>
        match ParseTokens(rest)
        case None => None
        case Some(tokens) => Some([token] + tokens)
  }

  lemma TakePaddedPad(b: Bytes, rest: Bytes)
    ensures TakePadded(Pad(b) + rest, |b|) == Some((b, rest))
  {
    var all, padded := Pad(b) + rest, PaddedLength(|b|);
    assert all[..|b|] == b && all[padded..] == rest;
    assert all[|b|..padded] == Zeros(padded - |b|);
  }

  lemma ParseEncodedBegin(name: Bytes, rest: Bytes)
    requires 0 !in name
    ensures ParseToken(Encode(Begin(name)) + rest) == Some((Begin(name), rest))
  {
    var body := Be32(BEGIN_NODE) + name + [0];
    var b := Pad(body) + rest;
    Be32RoundTrip(BEGIN_NODE, b[4..]);
    assert b == Be32(BEGIN_NODE) + b[4..];
    assert b[..|body|] == body;
    assert b[4..4 + |name|] == body[4..4 + |name|] == name && b[4 + |name|] == body[4 + |name|];
    CStringOf(b, 4, name);
    TakePaddedPad(body, rest);
  }

  lemma ParseEncodedValue(offset: u32, data: Bytes, rest: Bytes)
    requires |data| < U32
    ensures ParseToken(Encode(Value(offset, data)) + rest) == Some((Value(offset, data), rest))
  {
    hide ReadBe32, Be32, Pad, TakePadded, CStringAt;
    var words := Be32(PROPERTY) + Be32(|data|) + Be32(offset);
    var body := words + data;
    var b := Pad(body) + rest;
    assert b[..12] == words && body[12..] == data by {
      assert Pad(body)[..|body|] == body;
    }
    ThreeWords(PROPERTY, |data|, offset, b);
    TakePaddedPad(body, rest);
  }

  lemma ThreeWords(x: u32, y: u32, z: u32, b: Bytes)
    requires |b| >= 12 && b[..12] == Be32(x) + Be32(y) + Be32(z)
    ensures ReadBe32(b) == x && ReadBe32(b[4..]) == y && ReadBe32(b[8..]) == z
  {
    hide ReadBe32, Be32;
    var head := b[..12];
    assert b == head + b[12..];
    assert b == Be32(x) + b[4..] && b[4..] == Be32(y) + b[8..] && b[8..] == Be32(z) + b[12..];
    Be32RoundTrip(x, b[4..]);
    Be32RoundTrip(y, b[8..]);
    Be32RoundTrip(z, b[12..]);
  }

  lemma ParseEncoded(t: Token, rest: Bytes)
    requires ValidToken(t)
    ensures ParseToken(Encode(t) + rest) == Some((t, rest))
    ensures ReadBe32(Encode(t) + rest) != END
  {
    match t
    case Begin(name) =>
      ParseEncodedBegin(name, rest);
    case Value(offset, data) =>
      ParseEncodedValue(offset, data, rest);
    case Close =>
      Be32RoundTrip(END_NODE, rest);
      assert (Be32(END_NODE) + rest)[4..] == rest;
  }

  /** Parsing an encoded token list gives the list back. */
  lemma {:induction false} TokensRoundTrip(ts: seq<Token>)
    requires forall t :: t in ts ==> ValidToken(t)
    ensures ParseTokens(EncodeAll(ts) + Be32(END)) == Some(ts)
  {
    hide Encode, ParseToken, ReadBe32, Be32;
    if ts == [] {
      assert EncodeAll(ts) + Be32(END) == Be32(END) + [] == Be32(END);
      Be32RoundTrip(END, []);
    } else {
      var rest := EncodeAll(ts[1..]) + Be32(END);
      assert EncodeAll(ts) + Be32(END) == Encode(ts[0]) + rest;
      ParseEncoded(ts[0], rest);
      TokensRoundTrip(ts[1..]);
      assert [ts[0]] + ts[1..] == ts;
    }
  }

  // ----- Trees -----

  /** The property name that an offset into the strings block stands for. */
  function NameAt(strings: Bytes, offset: nat): Option<Bytes> {
    if offset >= |strings| || offset + |CStringAt(strings, offset)| == |strings| then None
    else Some(CStringAt(strings, offset))
  }

  function ParseProperties(ts: seq<Token>, strings: Bytes): (r: (seq<Property>, seq<Token>))
    ensures |r.1| <= |ts|
    decreases |ts|
  {
    if ts == [] || !ts[0].Value? || NameAt(strings, ts[0].offset).None? then ([], ts)
    else
      var (properties, rest) := ParseProperties(ts[1..], strings);
      ([Property(NameAt(strings, ts[0].offset).value, ts[0].data)] + properties, rest)
  }

  /** A node: its begin token, properties, subnodes, and its end token. */
  function ParseNode(ts: seq<Token>, strings: Bytes): (r: Option<(Node, seq<Token>)>)
    ensures r.Some? ==> |r.value.1| < |ts|
    decreases |ts|, 0
  {
    if ts == [] || !ts[0].Begin? then None
    else
      var (properties, afterProperties) := ParseProperties(ts[1..], strings);
      match ParseNodes(afterProperties, strings)
      case None => None
      case Some((children, rest)) =>
        if rest == [] || rest[0] != Close then None
        else Some((Node(ts[0].name, properties, children), rest[1..]))
  }

  function ParseNodes(ts: seq<Token>, strings: Bytes): (r: Option<(seq<Node>, seq<Token>)>)
    ensures r.Some? ==> |r.value.1| <= |ts|
    decreases |ts|, 1
  {
    if ts == [] || !ts[0].Begin? then Some(([], ts))
    else
      match ParseNode(ts, strings)
      case None => None
      case Some((node, rest)) =>
        match ParseNodes(rest, strings)
        case None => None
        case Some((nodes, rest')) => Some(([node] + nodes, rest'))
  }

  // ----- Trees as tokens -----

  /** The first entry of the strings block that equals a name, searching entry by entry from an offset. */
  function FindString(strings: Bytes, at: nat, name: Bytes): (r: Option<nat>)
    requires at <= |strings|
    ensures r.Some? ==> at <= r.value < |strings| && CStringAt(strings, r.value) == name
    decreases |strings| - at
  {
    if at == |strings| then None
    else
      var entry := CStringAt(strings, at);
      if entry == name then Some(at)
      else if at + |entry| + 1 > |strings| then None
      else FindString(strings, at + |entry| + 1, name)
  }

  /** Every entry is terminated. */
  predicate Terminated(strings: Bytes) { strings != [] ==> strings[|strings| - 1] == 0 }

  predicate Stored(strings: Bytes, name: Bytes) {
    FindString(strings, 0, name).Some? && FindString(strings, 0, name).value < U32
  }

  predicate StoredProperty(strings: Bytes, p: Property) { Stored(strings, p.name) && |p.data| < U32 }

  predicate NamesStored(n: Node, strings: Bytes) {
    && (forall p :: p in n.properties ==> StoredProperty(strings, p))
    && 0 !in n.name
    && forall c :: c in n.children ==> NamesStored(c, strings)
  }

  function PropertyTokens(ps: seq<Property>, strings: Bytes): (ts: seq<Token>)
    requires forall p :: p in ps ==> StoredProperty(strings, p)
    ensures |ts| == |ps| && forall t :: t in ts ==> ValidToken(t) && t.Value?
  {
    if ps == [] then []
    else
      assert StoredProperty(strings, ps[0]);
      [Value(FindString(strings, 0, ps[0].name).value, ps[0].data)] + PropertyTokens(ps[1..], strings)
  }

  /** The tokens of a node up to, but not including, its end token. */
  function OpenTokens(n: Node, strings: Bytes): (ts: seq<Token>)
    requires NamesStored(n, strings)
    ensures ts != [] && ts[0] == Begin(n.name) && forall t :: t in ts ==> ValidToken(t)
    decreases n, 0
  {
    [Begin(n.name)] + PropertyTokens(n.properties, strings) + NodesTokens(n.children, strings)
  }

  function NodesTokens(ns: seq<Node>, strings: Bytes): (ts: seq<Token>)
    requires forall n :: n in ns ==> NamesStored(n, strings)
    ensures forall t :: t in ts ==> ValidToken(t)
    ensures ts != [] ==> ts[0].Begin?
    decreases ns, 1
  {
    if ns == [] then [] else OpenTokens(ns[0], strings) + [Close] + NodesTokens(ns[1..], strings)
  }

  function NodeTokens(n: Node, strings: Bytes): (ts: seq<Token>)
    requires NamesStored(n, strings)
    ensures ts != [] && ts[0] == Begin(n.name) && forall t :: t in ts ==> ValidToken(t)
  {
    OpenTokens(n, strings) + [Close]
  }

  lemma StoredNameAt(strings: Bytes, name: Bytes)
    requires Terminated(strings) && Stored(strings, name)
    ensures NameAt(strings, FindString(strings, 0, name).value) == Some(name)
  {
  }

  lemma {:induction false} PropertiesRoundTrip(ps: seq<Property>, strings: Bytes, rest: seq<Token>)
    requires Terminated(strings) && forall p :: p in ps ==> StoredProperty(strings, p)
    requires rest != [] ==> !rest[0].Value?
    ensures ParseProperties(PropertyTokens(ps, strings) + rest, strings) == (ps, rest)
  {
    hide FindString, NameAt, CStringAt;
    var ts := PropertyTokens(ps, strings) + rest;
    if ps == [] {
      assert ts == rest;
    } else {
      assert StoredProperty(strings, ps[0]);
      StoredNameAt(strings, ps[0].name);
      assert ts[1..] == PropertyTokens(ps[1..], strings) + rest;
      PropertiesRoundTrip(ps[1..], strings, rest);
      assert [ps[0]] + ps[1..] == ps;
    }
  }

  /** Parsing the tokens of a node gives the node back, whatever follows. */
  lemma {:induction false} NodeRoundTrip(n: Node, strings: Bytes, rest: seq<Token>)
    requires Terminated(strings) && NamesStored(n, strings)
    ensures ParseNode(NodeTokens(n, strings) + rest, strings) == Some((n, rest))
    decreases n, 0
  {
    hide FindString, NameAt, CStringAt, ParseProperties, PropertyTokens;
    var ts := NodeTokens(n, strings) + rest;
    var behind := NodesTokens(n.children, strings) + ([Close] + rest);
    assert ts[1..] == PropertyTokens(n.properties, strings) + behind;
    PropertiesRoundTrip(n.properties, strings, behind);
    NodesRoundTrip(n.children, strings, [Close] + rest);
  }

  lemma {:induction false} NodesRoundTrip(ns: seq<Node>, strings: Bytes, rest: seq<Token>)
    requires Terminated(strings) && forall n :: n in ns ==> NamesStored(n, strings)
    requires rest != [] && !rest[0].Begin?
    ensures ParseNodes(NodesTokens(ns, strings) + rest, strings) == Some((ns, rest))
    decreases ns, 1
  {
    hide ParseNode, OpenTokens;
    var ts := NodesTokens(ns, strings) + rest;
    if ns == [] {
      assert ts == rest;
    } else {
      var behind := NodesTokens(ns[1..], strings) + rest;
      assert ts == NodeTokens(ns[0], strings) + behind;
      NodeRoundTrip(ns[0], strings, behind);
      NodesRoundTrip(ns[1..], strings, rest);
      assert [ns[0]] + ns[1..] == ns;
    }
  }

  // ----- Growth of the strings block -----

  lemma {:induction false} CStringGrows(strings: Bytes, more: Bytes, at: nat)
    requires at < |strings| && Terminated(strings)
    ensures CStringAt(strings + more, at) == CStringAt(strings, at)
    ensures at + |CStringAt(strings, at)| < |strings|
  {
    var s := CStringAt(strings, at);
    assert at + |s| < |strings|;
    assert (strings + more)[at..at + |s|] == s;
    CStringOf(strings + more, at, s);
  }

  lemma FindStep(strings: Bytes, at: nat, name: Bytes)
    requires at < |strings| && at + |CStringAt(strings, at)| < |strings|
    ensures var entry := CStringAt(strings, at);
            FindString(strings, at, name) ==
            if entry == name then Some(at) else FindString(strings, at + |entry| + 1, name)
  {
  }

  /** A stored name keeps its offset when the block grows. */
  lemma {:induction false} FindGrows(strings: Bytes, more: Bytes, at: nat, name: Bytes)
    requires at <= |strings| && Terminated(strings) && FindString(strings, at, name).Some?
    ensures FindString(strings + more, at, name) == FindString(strings, at, name)
    decreases |strings| - at
  {
    hide CStringAt, FindString;
    CStringGrows(strings, more, at);
    FindStep(strings, at, name);
    FindStep(strings + more, at, name);
    var entry := CStringAt(strings, at);
    if entry != name {
      FindGrows(strings, more, at + |entry| + 1, name);
    }
  }

  lemma FindAtEnd(strings: Bytes, name: Bytes)
    requires 0 !in name
    ensures FindString(strings + name + [0], |strings|, name) == Some(|strings|)
  {
    hide CStringAt, FindString;
    var grown, at := strings + name + [0], |strings|;
    assert grown[at..at + |name|] == name;
    CStringOf(grown, at, name);
    FindStep(grown, at, name);
  }

  /** A name that is missing gets the offset at which it is appended. */
  lemma {:induction false} FindAppended(strings: Bytes, at: nat, name: Bytes)
    requires at <= |strings| && Terminated(strings) && FindString(strings, at, name).None? && 0 !in name
    ensures FindString(strings + name + [0], at, name) == Some(|strings|)
    decreases |strings| - at
  {
    hide CStringAt, FindString;
    var grown := strings + name + [0];
    assert grown == strings + (name + [0]);
    if at == |strings| {
      FindAtEnd(strings, name);
    } else {
      CStringGrows(strings, name + [0], at);
      FindStep(strings, at, name);
      FindStep(grown, at, name);
      FindAppended(strings, at + |CStringAt(strings, at)| + 1, name);
    }
  }

  lemma {:induction false} PropertyTokensGrow(ps: seq<Property>, strings: Bytes, more: Bytes)
    requires Terminated(strings) && forall p :: p in ps ==> StoredProperty(strings, p)
    ensures forall p :: p in ps ==> StoredProperty(strings + more, p)
    ensures PropertyTokens(ps, strings + more) == PropertyTokens(ps, strings)
  {
    forall p | p in ps
      ensures FindString(strings + more, 0, p.name) == FindString(strings, 0, p.name)
    {
      FindGrows(strings, more, 0, p.name);
    }
    if ps != [] {
      PropertyTokensGrow(ps[1..], strings, more);
    }
  }

  lemma {:induction false} OpenTokensGrow(n: Node, strings: Bytes, more: Bytes)
    requires Terminated(strings) && NamesStored(n, strings)
    ensures NamesStored(n, strings + more) && OpenTokens(n, strings + more) == OpenTokens(n, strings)
    decreases n, 0
  {
    PropertyTokensGrow(n.properties, strings, more);
    NodesTokensGrow(n.children, strings, more);
  }

  lemma {:induction false} NodesTokensGrow(ns: seq<Node>, strings: Bytes, more: Bytes)
    requires Terminated(strings) && forall n :: n in ns ==> NamesStored(n, strings)
    ensures forall n :: n in ns ==> NamesStored(n, strings + more)
    ensures NodesTokens(ns, strings + more) == NodesTokens(ns, strings)
    decreases ns, 1
  {
    if ns != [] {
      OpenTokensGrow(ns[0], strings, more);
      NodesTokensGrow(ns[1..], strings, more);
      forall n | n in ns
        ensures NamesStored(n, strings + more)
      {
        assert n == ns[0] || n in ns[1..];
      }
    }
  }

  // ----- Blobs -----

  /** A whole blob: header fields that agree, an empty reservation map, one root node. */
  function Parse(blob: Bytes): Option<Node> {
    if |blob| < HEADER_SIZE || Field(blob, 0) != MAGIC || Field(blob, 1) != |blob| then None
    else
      var structureAt, stringsAt, mapAt := Field(blob, 2), Field(blob, 3), Field(blob, 4);
      var stringsSize, structureSize := Field(blob, 8), Field(blob, 9);
      if Field(blob, 5) != VERSION || Field(blob, 6) != LAST_COMPATIBLE_VERSION then None
      else if structureAt + structureSize > stringsAt || stringsAt + stringsSize > |blob| then None
      else if structureAt % 4 != 0 || mapAt % 8 != 0 then None
      else if mapAt < HEADER_SIZE || mapAt + RESERVE_MAP_SIZE > structureAt then None
      else if blob[mapAt..mapAt + RESERVE_MAP_SIZE] != Zeros(RESERVE_MAP_SIZE) then None
      else
        var strings := blob[stringsAt..stringsAt + stringsSize];
        match ParseTokens(blob[structureAt..structureAt + structureSize])
        case None => None
        case Some(tokens) =>
          match ParseNode(tokens, strings)
          case None => None
          case Some((root, rest)) => if rest == [] && root.name == [] then Some(root) else None
  }

  /** The n-th header word. */
  function Field(blob: Bytes, n: nat): u32
    requires 4 * n + 4 <= |blob|
  {
    ReadBe32(blob[4 * n..])
  }
}
