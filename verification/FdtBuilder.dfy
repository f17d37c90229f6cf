/**
 The device tree builder: what each call does to the structure and strings blocks, and the proof that
 parsing the finished blob gives exactly the tree the accepted calls describe.
 */
module FdtBuilder {
  import opened Base
  import opened FdtFormat

  /** A builder; `childSeen` is the stack of open nodes, outermost first. */
  datatype Builder = Builder(
    structure: Bytes, strings: Bytes, childSeen: seq<bool>,
    rootSeen: bool, rootClosed: bool, finished: bool,
    structureCapacity: nat, stringsCapacity: nat)

  datatype Call =
    | BeginNode(name: Bytes)
    | AddProperty(name: Bytes, data: Bytes)
    | EndNode

  const SLASH: u8 := 47

  function DepthCapacity(b: Builder): nat { b.structureCapacity / 8 + 1 }

  /** Room for `size` more bytes, rounded up to a multiple of four. */
  function Reserve(b: Builder, size: nat): Result<()>
    requires |b.structure| <= b.structureCapacity
  {
    if size > U64_MAX - 3 then Err(EOVERFLOW)
    else if PaddedLength(size) > b.structureCapacity - |b.structure| then Err(ENOSPC)
    else Ok(())
  }

  function ApplyBegin(b: Builder, name: Bytes): (Builder, Result<()>)
    requires Fits(b) && 0 !in name
  {
    if b.finished || b.rootClosed || (!b.rootSeen && name != []) || (b.rootSeen && name == []) || SLASH in name then
      (b, Err(EINVAL))
    else if |b.childSeen| >= DepthCapacity(b) then (b, Err(EOVERFLOW))
    else if |name| + 1 > U64_MAX - 4 then (b, Err(EOVERFLOW))
    else if Reserve(b, 4 + |name| + 1).Err? then (b, Reserve(b, 4 + |name| + 1))
    else
      var parents := if b.childSeen == [] then [] else b.childSeen[|b.childSeen| - 1 := true];
      (b.(structure := b.structure + Encode(Begin(name)), childSeen := parents + [false], rootSeen := true), Ok(()))
  }

  function ApplyEnd(b: Builder): (Builder, Result<()>)
    requires Fits(b)
  {
    if b.finished || b.childSeen == [] then (b, Err(EINVAL))
    else if Reserve(b, 4).Err? then (b, Reserve(b, 4))
    else
      var depth := |b.childSeen| - 1;
      (b.(structure := b.structure + Encode(Close), childSeen := b.childSeen[..depth],
          rootClosed := b.rootClosed || depth == 0), Ok(()))
  }

  function ApplyProperty(b: Builder, name: Bytes, data: Bytes): (Builder, Result<()>)
    requires Fits(b) && 0 !in name
  {
    if name == [] || b.finished || b.childSeen == [] || b.childSeen[|b.childSeen| - 1] then (b, Err(EINVAL))
    else if |data| >= U32 then (b, Err(EOVERFLOW))
    else if Reserve(b, 12 + |data|).Err? then (b, Reserve(b, 12 + |data|))
    else
      match FindString(b.strings, 0, name)
      case Some(offset) => (b.(structure := b.structure + Encode(Value(offset, data))), Ok(()))
      case None =>
        if |name| + 1 > b.stringsCapacity - |b.strings| then (b, Err(ENOSPC))
        else (b.(structure := b.structure + Encode(Value(|b.strings|, data)),
                 strings := b.strings + name + [0]), Ok(()))
  }

  /** Header, empty reservation map, structure block and strings block. */
  function Blob(structure: Bytes, strings: Bytes): Bytes
    requires HEADER_SIZE + RESERVE_MAP_SIZE + |structure| + |strings| < U32
  {
    var structureAt := HEADER_SIZE + RESERVE_MAP_SIZE;
    var stringsAt := structureAt + |structure|;
    Be32(MAGIC) + Be32(stringsAt + |strings|) + Be32(structureAt) + Be32(stringsAt) + Be32(HEADER_SIZE) +
    Be32(VERSION) + Be32(LAST_COMPATIBLE_VERSION) + Be32(0) + Be32(|strings|) + Be32(|structure|) +
    Zeros(RESERVE_MAP_SIZE) + structure + strings
  }

  function Finish(b: Builder): (Builder, Result<Bytes>)
    requires Fits(b)
  {
    if b.finished || !b.rootSeen || !b.rootClosed || b.childSeen != [] then (b, Err(EINVAL))
    else if Reserve(b, 4).Err? then (b, Err(Reserve(b, 4).error))
    else
      var structure := b.structure + Be32(END);
      var stringsAt := HEADER_SIZE + RESERVE_MAP_SIZE + |structure|;
      if stringsAt >= U32 || |b.strings| > U32 - 1 - stringsAt then (b, Err(EOVERFLOW))
      else (b.(structure := structure, finished := true), Ok(Blob(structure, b.strings)))
  }

  /** Sizes are within the capacities, which fit 32 bits; the structure block stays word aligned. */
  predicate Fits(b: Builder) {
    && |b.structure| <= b.structureCapacity < U32 && |b.strings| <= b.stringsCapacity < U32
    && |b.structure| % 4 == 0 && Terminated(b.strings)
  }

  function ApplyCall(b: Builder, call: Call): (Builder, Result<()>)
    requires Fits(b) && ValidCall(call)
  {
    match call
    case BeginNode(name) => ApplyBegin(b, name)
    case AddProperty(name, data) => ApplyProperty(b, name, data)
    case EndNode => ApplyEnd(b)
  }

  /** Names are C strings. */
  predicate ValidCall(call: Call) { call.EndNode? || 0 !in call.name }

  /** A rejected call changes nothing; an accepted one keeps the sizes within bounds. */
  lemma RejectedCallChangesNothing(b: Builder, call: Call)
    requires Fits(b) && ValidCall(call)
    ensures Fits(ApplyCall(b, call).0)
    ensures ApplyCall(b, call).1.Err? ==> ApplyCall(b, call).0 == b
    ensures ApplyCall(b, call).1.Ok? ==> |ApplyCall(b, call).0.structure| > |b.structure|
  {
    hide ApplyBegin, ApplyProperty, ApplyEnd;
    match call
    case BeginNode(name) => BeginFits(b, name);
    case AddProperty(name, data) => PropertyFits(b, name, data);
    case EndNode => EndFits(b);
  }

  lemma BeginFits(b: Builder, name: Bytes)
    requires Fits(b) && 0 !in name
    ensures var (b', r) := ApplyBegin(b, name);
            Fits(b') && (if r.Err? then b' == b else |b'.structure| > |b.structure|)
  {
    hide Encode;
  }

  lemma PropertyFits(b: Builder, name: Bytes, data: Bytes)
    requires Fits(b) && 0 !in name
    ensures var (b', r) := ApplyProperty(b, name, data);
            Fits(b') && (if r.Err? then b' == b else |b'.structure| > |b.structure|)
  {
    hide Encode, FindString, CStringAt;
  }

  lemma EndFits(b: Builder)
    requires Fits(b)
    ensures var (b', r) := ApplyEnd(b);
            Fits(b') && (if r.Err? then b' == b else |b'.structure| > |b.structure|)
  {
    hide Encode;
    assert PaddedLength(4) == 4;
  }

  // ----- The tree a sequence of calls describes -----

  /** The open nodes, outermost first, and the root once it is closed. */
  datatype Document = Document(open: seq<Node>, root: Option<Node>)

  function Last<T>(s: seq<T>): T
    requires s != []
  {
    s[|s| - 1]
  }

  function Front<T>(s: seq<T>): seq<T>
    requires s != []
  {
    s[..|s| - 1]
  }

  /** A begin opens a node, a property goes to the innermost open node, an end files that node under its parent. */
  function Describe(d: Document, call: Call): Document {
    match call
    case BeginNode(name) => d.(open := d.open + [Node(name, [], [])])
    case AddProperty(name, data) =>
      if d.open == [] then d
      else
        var top := Last(d.open);
        d.(open := Front(d.open) + [top.(properties := top.properties + [Property(name, data)])])
    case EndNode =>
      if d.open == [] then d
      else if |d.open| == 1 then Document([], Some(d.open[0]))
      else
        var parent := Last(Front(d.open));
        d.(open := Front(Front(d.open)) + [parent.(children := parent.children + [Last(d.open)])])
  }

  // ----- The blocks represent the document -----

  function OpenAllTokens(open: seq<Node>, strings: Bytes): (ts: seq<Token>)
    requires forall n :: n in open ==> NamesStored(n, strings)
    ensures forall t :: t in ts ==> ValidToken(t)
  {
    if open == [] then [] else OpenAllTokens(Front(open), strings) + OpenTokens(Last(open), strings)
  }

  ghost predicate DocumentStored(d: Document, strings: Bytes) {
    && (forall n :: n in d.open ==> NamesStored(n, strings))
    && (d.root.Some? ==> NamesStored(d.root.value, strings))
  }

  ghost function DocumentTokens(d: Document, strings: Bytes): (ts: seq<Token>)
    requires DocumentStored(d, strings)
    ensures forall t :: t in ts ==> ValidToken(t)
  {
    if d.root.Some? then NodeTokens(d.root.value, strings) else OpenAllTokens(d.open, strings)
  }

  /** The flags and the stack of the builder follow the document. */
  ghost predicate SameShape(b: Builder, d: Document) {
    && |b.childSeen| == |d.open|
    && (forall i :: 0 <= i < |d.open| ==> b.childSeen[i] == (d.open[i].children != [] || i + 1 < |d.open|))
    && (b.rootClosed <==> d.root.Some?)
    && (b.rootSeen <==> d.root.Some? || d.open != [])
    && (d.open != [] ==> d.open[0].name == [])
    && (d.root.Some? ==> d.open == [] && d.root.value.name == [])
  }

  /** The structure block holds the document's tokens, and the strings block its property names. */
  ghost predicate SameContent(b: Builder, d: Document) {
    && DocumentStored(d, b.strings)
    && b.structure == EncodeAll(DocumentTokens(d, b.strings))
  }

  ghost predicate Represents(b: Builder, d: Document) {
    Fits(b) && !b.finished && SameShape(b, d) && SameContent(b, d)
  }

  lemma {:induction false} EncodeAppend(ts: seq<Token>, us: seq<Token>)
    requires forall t :: t in ts ==> ValidToken(t)
    requires forall t :: t in us ==> ValidToken(t)
    ensures EncodeAll(ts + us) == EncodeAll(ts) + EncodeAll(us)
  {
    hide Encode;
    if ts == [] {
      assert ts + us == us;
    } else {
      assert (ts + us)[1..] == ts[1..] + us;
      EncodeAppend(ts[1..], us);
    }
  }

  lemma EncodeOneMore(ts: seq<Token>, t: Token)
    requires forall t :: t in ts ==> ValidToken(t)
    requires ValidToken(t)
    ensures EncodeAll(ts + [t]) == EncodeAll(ts) + Encode(t)
  {
    hide Encode;
    EncodeAppend(ts, [t]);
    assert EncodeAll([t]) == Encode(t) + EncodeAll([]) == Encode(t);
  }

  lemma {:induction false} PropertyTokensAppend(ps: seq<Property>, p: Property, strings: Bytes)
    requires StoredProperty(strings, p) && forall q :: q in ps ==> StoredProperty(strings, q)
    ensures forall q :: q in ps + [p] ==> StoredProperty(strings, q)
    ensures PropertyTokens(ps + [p], strings) ==
            PropertyTokens(ps, strings) + [Value(FindString(strings, 0, p.name).value, p.data)]
  {
    hide FindString;
    if ps == [] {
      assert ps + [p] == [p];
    } else {
      assert (ps + [p])[1..] == ps[1..] + [p];
      PropertyTokensAppend(ps[1..], p, strings);
    }
  }

  lemma {:induction false} NodesTokensAppend(ns: seq<Node>, n: Node, strings: Bytes)
    requires forall m :: m in ns + [n] ==> NamesStored(m, strings)
    ensures NamesStored(n, strings) && forall m :: m in ns ==> NamesStored(m, strings)
    ensures NodesTokens(ns + [n], strings) == NodesTokens(ns, strings) + NodeTokens(n, strings)
  {
    hide OpenTokens;
    assert (ns + [n])[|ns|] == n;
    forall m | m in ns ensures NamesStored(m, strings) { assert m in ns + [n]; }
    if ns == [] {
      assert ns + [n] == [n];
      assert NodesTokens([n], strings) == OpenTokens(n, strings) + [Close] + NodesTokens([], strings);
    } else {
      assert (ns + [n])[1..] == ns[1..] + [n];
      NodesTokensAppend(ns[1..], n, strings);
    }
  }

  lemma OpenAllStep(open: seq<Node>, top: Node, strings: Bytes)
    requires forall n :: n in open + [top] ==> NamesStored(n, strings)
    ensures NamesStored(top, strings) && forall n :: n in open ==> NamesStored(n, strings)
    ensures OpenAllTokens(open + [top], strings) == OpenAllTokens(open, strings) + OpenTokens(top, strings)
  {
    hide OpenTokens, NamesStored;
    assert (open + [top])[|open|] == top;
    forall n | n in open ensures NamesStored(n, strings) { assert n in open + [top]; }
    assert Front(open + [top]) == open && Last(open + [top]) == top;
  }

  lemma {:induction false} OpenAllGrow(open: seq<Node>, strings: Bytes, more: Bytes)
    requires Terminated(strings) && forall n :: n in open ==> NamesStored(n, strings)
    ensures forall n :: n in open ==> NamesStored(n, strings + more)
    ensures OpenAllTokens(open, strings + more) == OpenAllTokens(open, strings)
    decreases |open|
  {
    hide OpenTokens, NamesStored;
    if open != [] {
      OpenAllGrow(Front(open), strings, more);
      OpenTokensGrow(Last(open), strings, more);
      forall n | n in open ensures NamesStored(n, strings + more) {
        assert n in Front(open) || n == Last(open);
      }
    }
  }

  /** An accepted call keeps the flags and the stack in step with the document. */
  lemma CallKeepsShape(b: Builder, d: Document, call: Call)
    requires Fits(b) && SameShape(b, d) && ValidCall(call) && ApplyCall(b, call).1.Ok?
    ensures SameShape(ApplyCall(b, call).0, Describe(d, call))
    ensures ApplyCall(b, call).0.finished == b.finished
    ensures call.BeginNode? ==> d.root.None?
    ensures !call.BeginNode? ==> d.open != [] && d.root.None?
    ensures call.AddProperty? ==> Last(d.open).children == []
  {
    hide Encode, FindString, CStringAt, Reserve;
    match call
    case BeginNode(name) =>
    case AddProperty(name, data) =>
    case EndNode =>
  }

  lemma BeginContent(d: Document, name: Bytes, strings: Bytes)
    requires DocumentStored(d, strings) && d.root.None? && 0 !in name
    ensures var d' := Describe(d, BeginNode(name));
            DocumentStored(d', strings) && DocumentTokens(d', strings) == DocumentTokens(d, strings) + [Begin(name)]
  {
    hide FindString, CStringAt;
    var node := Node(name, [], []);
    assert NamesStored(node, strings);
    assert OpenTokens(node, strings) == [Begin(name)];
    forall n | n in d.open + [node] ensures NamesStored(n, strings) { assert n in d.open || n == node; }
    OpenAllStep(d.open, node, strings);
  }

  /** Filing the innermost open node under its parent appends its end token. */
  lemma EndOfChild(outer: seq<Node>, parent: Node, top: Node, strings: Bytes)
    requires forall n :: n in outer + [parent] + [top] ==> NamesStored(n, strings)
    ensures var parent' := parent.(children := parent.children + [top]);
            && (forall n :: n in outer + [parent'] ==> NamesStored(n, strings))
            && OpenAllTokens(outer + [parent'], strings) == OpenAllTokens(outer + [parent] + [top], strings) + [Close]
  {
    hide FindString, CStringAt, NamesStored, OpenTokens, OpenAllTokens;
    var parent' := parent.(children := parent.children + [top]);
    OpenAllStep(outer + [parent], top, strings);
    OpenAllStep(outer, parent, strings);
    CloseUnderParent(parent, top, strings);
    forall n | n in outer + [parent'] ensures NamesStored(n, strings) { assert n in outer || n == parent'; }
    OpenAllStep(outer, parent', strings);
    var below, p, t := OpenAllTokens(outer, strings), OpenTokens(parent, strings), OpenTokens(top, strings);
    assert below + (p + (t + [Close])) == below + p + t + [Close];
  }

  lemma EndContent(d: Document, strings: Bytes)
    requires DocumentStored(d, strings) && d.root.None? && d.open != []
    ensures var d' := Describe(d, EndNode);
            DocumentStored(d', strings) && DocumentTokens(d', strings) == DocumentTokens(d, strings) + [Close]
  {
    hide FindString, CStringAt, NamesStored, OpenTokens, OpenAllTokens;
    var top := Last(d.open);
    if |d.open| == 1 {
      assert d.open == [] + [top];
      OpenAllStep([], top, strings);
      NothingOpen(strings);
    } else {
      var outer, parent := Front(Front(d.open)), Last(Front(d.open));
      assert d.open == outer + [parent] + [top];
      EndOfChild(outer, parent, top, strings);
    }
  }

  lemma NothingOpen(strings: Bytes)
    ensures OpenAllTokens([], strings) == []
  {
  }

  lemma CloseUnderParent(parent: Node, child: Node, strings: Bytes)
    requires NamesStored(parent, strings) && NamesStored(child, strings)
    ensures var parent' := parent.(children := parent.children + [child]);
            && NamesStored(parent', strings)
            && OpenTokens(parent', strings) == OpenTokens(parent, strings) + NodeTokens(child, strings)
  {
    var children := parent.children + [child];
    forall n | n in children ensures NamesStored(n, strings) { assert n in parent.children || n == child; }
    NodesTokensAppend(parent.children, child, strings);
  }

  /** The strings block after a property name was looked up or appended. */
  function StringsWith(strings: Bytes, name: Bytes): Bytes {
    if FindString(strings, 0, name).Some? then strings else strings + name + [0]
  }

  lemma StringsWithStores(strings: Bytes, name: Bytes)
    requires Terminated(strings) && 0 !in name && |strings| < U32
    ensures Terminated(StringsWith(strings, name)) && Stored(StringsWith(strings, name), name)
    ensures StringsWith(strings, name) == strings || StringsWith(strings, name) == strings + (name + [0])
    ensures FindString(StringsWith(strings, name), 0, name).value ==
            if FindString(strings, 0, name).Some? then FindString(strings, 0, name).value else |strings|
  {
    hide CStringAt;
    if FindString(strings, 0, name).None? {
      FindAppended(strings, 0, name);
      assert strings + name + [0] == strings + (name + [0]);
    }
  }

  lemma PropertyUnderTop(top: Node, property: Property, strings: Bytes)
    requires NamesStored(top, strings) && top.children == [] && StoredProperty(strings, property)
    ensures var top' := top.(properties := top.properties + [property]);
            && NamesStored(top', strings)
            && OpenTokens(top', strings) ==
               OpenTokens(top, strings) + [Value(FindString(strings, 0, property.name).value, property.data)]
  {
    hide FindString, Stored;
    PropertyTokensAppend(top.properties, property, strings);
    assert NodesTokens([], strings) == [];
  }

  /** A property of the innermost open node appends one token, in the grown strings block. */
  lemma PropertyAppendsToken(open: seq<Node>, property: Property, strings: Bytes, grown: Bytes)
    requires open != [] && Last(open).children == [] && Terminated(strings)
    requires forall n :: n in open ==> NamesStored(n, strings)
    requires exists more :: grown == strings + more
    requires StoredProperty(grown, property)
    ensures forall n :: n in open ==> NamesStored(n, grown)
    ensures OpenAllTokens(open, grown) == OpenAllTokens(open, strings)
    ensures var top := Last(open);
            var open' := Front(open) + [top.(properties := top.properties + [property])];
            && (forall n :: n in open' ==> NamesStored(n, grown))
            && OpenAllTokens(open', grown) ==
               OpenAllTokens(open, grown) + [Value(FindString(grown, 0, property.name).value, property.data)]
  {
    hide FindString, Stored, NamesStored, OpenTokens;
    var more :| grown == strings + more;
    OpenAllGrow(open, strings, more);
    var outer, top := Front(open), Last(open);
    assert open == outer + [top];
    OpenAllStep(outer, top, grown);
    PropertyUnderTop(top, property, grown);
    var top' := top.(properties := top.properties + [property]);
    forall n | n in outer + [top'] ensures NamesStored(n, grown) { assert n in outer || n == top'; }
    OpenAllStep(outer, top', grown);
  }

  /** What an accepted property call did. */
  lemma AcceptedProperty(b: Builder, name: Bytes, data: Bytes)
    requires Fits(b) && 0 !in name && ApplyProperty(b, name, data).1.Ok?
    ensures b.childSeen != [] && !Last(b.childSeen) && |data| < U32
    ensures var strings := StringsWith(b.strings, name);
            && Stored(strings, name)
            && (exists more :: strings == b.strings + more)
            && ApplyProperty(b, name, data).0 ==
               b.(structure := b.structure + Encode(Value(FindString(strings, 0, name).value, data)), strings := strings)
  {
    hide Encode, FindString, CStringAt;
    StringsWithStores(b.strings, name);
    assert b.strings == b.strings + [];
  }

  lemma PropertyKeepsContent(b: Builder, d: Document, name: Bytes, data: Bytes)
    requires Fits(b) && SameContent(b, d) && 0 !in name && ApplyProperty(b, name, data).1.Ok?
    requires d.open != [] && d.root.None? && Last(d.open).children == []
    ensures SameContent(ApplyProperty(b, name, data).0, Describe(d, AddProperty(name, data)))
  {
    AcceptedProperty(b, name, data);
    hide Encode, EncodeAll, FindString, Stored, CStringAt, NamesStored, OpenTokens, OpenAllTokens, StringsWith, ApplyProperty;
    var strings := StringsWith(b.strings, name);
    PropertyAppendsToken(d.open, Property(name, data), b.strings, strings);
    EncodeOneMore(DocumentTokens(d, b.strings), Value(FindString(strings, 0, name).value, data));
  }

  lemma CallKeepsContent(b: Builder, d: Document, call: Call)
    requires Represents(b, d) && ValidCall(call) && ApplyCall(b, call).1.Ok?
    ensures SameContent(ApplyCall(b, call).0, Describe(d, call))
  {
    CallKeepsShape(b, d, call);
    hide Encode, EncodeAll, FindString, NamesStored, SameShape, Reserve, DocumentStored, DocumentTokens, Describe, ApplyProperty;
    match call {
      case BeginNode(name) =>
        BeginContent(d, name, b.strings);
        EncodeOneMore(DocumentTokens(d, b.strings), Begin(name));
      case AddProperty(name, data) =>
        PropertyKeepsContent(b, d, name, data);
      case EndNode =>
        EndContent(d, b.strings);
        EncodeOneMore(DocumentTokens(d, b.strings), Close);
    }
  }

  /** An accepted call keeps the blocks in step with the document. */
  lemma CallRepresents(b: Builder, d: Document, call: Call)
    requires Represents(b, d) && ValidCall(call) && ApplyCall(b, call).1.Ok?
    ensures Represents(ApplyCall(b, call).0, Describe(d, call))
  {
    RejectedCallChangesNothing(b, call);
    CallKeepsShape(b, d, call);
    CallKeepsContent(b, d, call);
    hide ApplyCall, Describe, SameShape, SameContent, Fits;
  }

  // ----- Runs -----

  function Fresh(structureCapacity: nat, stringsCapacity: nat): Builder {
    Builder([], [], [], false, false, false, structureCapacity, stringsCapacity)
  }

  /** A builder after a sequence of calls, and the document its accepted calls describe. */
  ghost function Run(b: Builder, d: Document, calls: seq<Call>): (r: (Builder, Document))
    requires Represents(b, d) && forall c :: c in calls ==> ValidCall(c)
    ensures Represents(r.0, r.1)
    decreases |calls|
  {
    if calls == [] then (b, d)
    else
      assert ValidCall(calls[0]);
      var (b', result) := ApplyCall(b, calls[0]);
      if result.Err? then
        RejectedCallChangesNothing(b, calls[0]);
        Run(b, d, calls[1..])
      else
        CallRepresents(b, d, calls[0]);
        Run(b', Describe(d, calls[0]), calls[1..])
  }

  lemma FreshRepresents(structureCapacity: nat, stringsCapacity: nat)
    requires structureCapacity < U32 && stringsCapacity < U32
    ensures Represents(Fresh(structureCapacity, stringsCapacity), Document([], None))
  {
  }

  /** The header fields and the blocks, as the parser reads them from a blob. */
  lemma BlobFields(structure: Bytes, strings: Bytes)
    requires HEADER_SIZE + RESERVE_MAP_SIZE + |structure| + |strings| < U32
    ensures var blob := Blob(structure, strings);
            && |blob| == 56 + |structure| + |strings|
            && Field(blob, 0) == 0xd00d_feed && Field(blob, 1) == |blob|
            && Field(blob, 2) == 56 && Field(blob, 3) == 56 + |structure| && Field(blob, 4) == 40
            && Field(blob, 5) == 17 && Field(blob, 6) == 16 && Field(blob, 7) == 0
            && Field(blob, 8) == |strings| && Field(blob, 9) == |structure|
            && blob[40..56] == Zeros(16)
            && blob[56..56 + |structure|] == structure && blob[56 + |structure|..] == strings
  {
    hide Be32, ReadBe32;
    var blob := Blob(structure, strings);
    var fields: seq<u32> := [MAGIC, 56 + |structure| + |strings|, 56, 56 + |structure|, 40, VERSION,
                             LAST_COMPATIBLE_VERSION, 0, |strings|, |structure|];
    var rest := Zeros(16) + structure + strings;
    assert blob == Words(fields) + rest by {
      WordsUnfold(fields);
    }
    forall n | 0 <= n < 10 ensures Field(blob, n) == fields[n] {
      WordsField(fields, rest, n);
    }
    WordsLength(fields);
    assert rest[..16] == Zeros(16) && rest[16..16 + |structure|] == structure && rest[16 + |structure|..] == strings;
    assert blob[40..] == rest;
    assert blob[40..56] == rest[..16];
    assert blob[56..56 + |structure|] == rest[16..16 + |structure|];
    assert blob[56 + |structure|..] == rest[16 + |structure|..];
    assert Field(blob, 0) == fields[0] && Field(blob, 1) == fields[1] && Field(blob, 2) == fields[2];
    assert Field(blob, 3) == fields[3] && Field(blob, 4) == fields[4] && Field(blob, 5) == fields[5];
    assert Field(blob, 6) == fields[6] && Field(blob, 7) == fields[7] && Field(blob, 8) == fields[8];
  }

  function Words(fields: seq<u32>): Bytes {
    if fields == [] then [] else Be32(fields[0]) + Words(fields[1..])
  }

  lemma {:induction false} WordsLength(fields: seq<u32>)
    ensures |Words(fields)| == 4 * |fields|
  {
    if fields != [] {
      WordsLength(fields[1..]);
    }
  }

  lemma {:induction false} WordsField(fields: seq<u32>, rest: Bytes, n: nat)
    requires n < |fields|
    ensures |Words(fields)| == 4 * |fields| && Field(Words(fields) + rest, n) == fields[n]
  {
    hide Be32, ReadBe32;
    WordsLength(fields);
    var tail := Words(fields[1..]) + rest;
    assert Words(fields) + rest == Be32(fields[0]) + tail;
    if n == 0 {
      Be32RoundTrip(fields[0], tail);
      assert (Words(fields) + rest)[0..] == Be32(fields[0]) + tail;
    } else {
      WordsField(fields[1..], rest, n - 1);
      assert (Be32(fields[0]) + tail)[4 * n..] == tail[4 * (n - 1)..];
    }
  }

  lemma WordsUnfold(f: seq<u32>)
    requires |f| == 10
    ensures Words(f) == Be32(f[0]) + Be32(f[1]) + Be32(f[2]) + Be32(f[3]) + Be32(f[4]) +
                        Be32(f[5]) + Be32(f[6]) + Be32(f[7]) + Be32(f[8]) + Be32(f[9])
  {
    hide Be32;
    assert Words(f) == Be32(f[0]) + (Be32(f[1]) + Words(f[2..]));
    assert Words(f[2..]) == Be32(f[2]) + (Be32(f[3]) + Words(f[4..]));
    assert Words(f[4..]) == Be32(f[4]) + (Be32(f[5]) + Words(f[6..]));
    assert Words(f[6..]) == Be32(f[6]) + (Be32(f[7]) + Words(f[8..]));
    assert Words(f[8..]) == Be32(f[8]) + (Be32(f[9]) + Words(f[10..]));
  }

  /** A finished builder's blob parses to exactly the document. */
  lemma FinishedBlobParses(b: Builder, d: Document)
    requires Represents(b, d) && Finish(b).1.Ok?
    ensures d.root.Some? && Parse(Finish(b).1.value) == d.root
  {
    hide Encode, EncodeAll, FindString, CStringAt, NamesStored, OpenTokens, ParseTokens, ParseNode, Blob, Be32, ReadBe32, Field;
    var structure := b.structure + Be32(END);
    BlobFields(structure, b.strings);
    var blob := Blob(structure, b.strings);
    assert blob[56 + |structure|..56 + |structure| + |b.strings|] == b.strings;
    var tokens := NodeTokens(d.root.value, b.strings);
    TokensRoundTrip(tokens);
    NodeRoundTrip(d.root.value, b.strings, []);
    assert tokens + [] == tokens;
  }

  /**
   The main theorem: from a fresh builder, for every sequence of begin, property and end calls, if finish
   succeeds then parsing the blob yields exactly the tree that the accepted calls describe.
   */
  lemma BuiltTreeParses(structureCapacity: nat, stringsCapacity: nat, calls: seq<Call>)
    requires structureCapacity < U32 && stringsCapacity < U32 && forall c :: c in calls ==> ValidCall(c)
    ensures Represents(Fresh(structureCapacity, stringsCapacity), Document([], None))
    ensures var (b, d) := Run(Fresh(structureCapacity, stringsCapacity), Document([], None), calls);
            Finish(b).1.Ok? ==> d.root.Some? && Parse(Finish(b).1.value) == d.root
  {
    hide Parse, Finish, EncodeAll, DocumentTokens, DocumentStored;
    FreshRepresents(structureCapacity, stringsCapacity);
    var (b, d) := Run(Fresh(structureCapacity, stringsCapacity), Document([], None), calls);
    if Finish(b).1.Ok? {
      FinishedBlobParses(b, d);
    }
  }

  // ----- The depth bound -----

  lemma {:induction false} OpenNodesTakeEightBytes(open: seq<Node>, strings: Bytes)
    requires forall n :: n in open ==> NamesStored(n, strings)
    ensures |EncodeAll(OpenAllTokens(open, strings))| >= 8 * |open|
    decreases |open|
  {
    hide NamesStored, OpenTokens, EncodeAll;
    if open != [] {
      OpenNodesTakeEightBytes(Front(open), strings);
      var top := OpenTokens(Last(open), strings);
      EncodeAppend(OpenAllTokens(Front(open), strings), top);
      BeginTakesEightBytes(top);
    }
  }

  lemma BeginTakesEightBytes(ts: seq<Token>)
    requires (forall t :: t in ts ==> ValidToken(t)) && ts != [] && ts[0].Begin?
    ensures |EncodeAll(ts)| >= 8
  {
    hide Encode;
    assert |Encode(ts[0])| >= 8;
  }

  /** The depth test of begin never fires: every open node already took eight bytes of the structure block. */
  lemma DepthErrorNeverFires(b: Builder, d: Document)
    requires Represents(b, d)
    ensures |b.childSeen| < DepthCapacity(b)
  {
    hide EncodeAll, NamesStored, FindString;
    if d.open != [] {
      OpenNodesTakeEightBytes(d.open, b.strings);
    }
  }

  /** Two stored properties share an offset exactly when their names are equal. */
  lemma OffsetsShared(strings: Bytes, p: Property, q: Property)
    requires StoredProperty(strings, p) && StoredProperty(strings, q)
    ensures FindString(strings, 0, p.name).value == FindString(strings, 0, q.name).value <==> p.name == q.name
  {
  }
}
