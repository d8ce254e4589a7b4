/** JSON documents: trees, and the concrete syntax that spells them (section 2 of RFC 8259). */
module Grammar {
  import opened Bytes
  import opened StringGrammar
  import opened Numbers

  /** A JSON value. Strings are decoded, numbers are kept as text; names may repeat. */
  datatype JSON =
    | Null
    | Bool(b: bool)
    | Number(text: bytes)
    | String(text: bytes)
    | Array(elems: seq<JSON>)
    | Object(members: seq<Member>)

  datatype Member = Member(name: bytes, value: JSON)

  /** A value as written, with the whitespace inside it. */
  datatype Syn =
    | SNull
    | SBool(b: bool)
    | SNumber(text: bytes)
    | SString(chars: seq<StrChar>)
    | SContainer(obj: bool, inner: bytes, entries: seq<Entry>)   // `inner` is what an empty container holds

  /** A member or an element, with the whitespace before and after it. */
  datatype Entry = Entry(pre: bytes, name: Option<Name>, value: Syn, post: bytes)

  /** A member name, with the whitespace before and after its colon. */
  datatype Name = Name(chars: seq<StrChar>, gap: bytes, after: bytes)

  const NULL: bytes := [0x6E, 0x75, 0x6C, 0x6C]
  const TRUE: bytes := [0x74, 0x72, 0x75, 0x65]
  const FALSE: bytes := [0x66, 0x61, 0x6C, 0x73, 0x65]

  function Opening(obj: bool): byte { if obj then LBRACE else LBRACKET }

  function Closing(obj: bool): byte { if obj then RBRACE else RBRACKET }

  // ---------- bytes ----------

  function NameBytes(name: Option<Name>): bytes {
    match name
    case None => []
    case Some(n) => [QUOTE] + CharsBytes(n.chars) + [QUOTE] + n.gap + [COLON] + n.after
  }

  function SynBytes(c: Syn): bytes
    decreases c
  {
    match c
    case SNull => NULL
    case SBool(b) => if b then TRUE else FALSE
    case SNumber(text) => text
    case SString(chars) => [QUOTE] + CharsBytes(chars) + [QUOTE]
    case SContainer(obj, inner, entries) =>
      [Opening(obj)] + (if entries == [] then inner + [Closing(obj)] else ListBytes(obj, entries))
  }

  function EntryBytes(e: Entry): bytes
    decreases e
  {
    e.pre + NameBytes(e.name) + SynBytes(e.value) + e.post
  }

  /** Entries, and the closing bracket. */
  function ListBytes(obj: bool, es: seq<Entry>): bytes
    requires es != []
    decreases es, 1
  {
    EntryBytes(es[0]) + TailBytes(obj, es[1..])
  }

  /** What follows an entry: a comma and more entries, or the closing bracket. */
  function TailBytes(obj: bool, es: seq<Entry>): bytes
    decreases es, 2
  {
    if es == [] then [Closing(obj)] else [COMMA] + ListBytes(obj, es)
  }

  // ---------- well-formedness ----------

  predicate WfName(obj: bool, name: Option<Name>) {
    name.Some? == obj &&
    (name.Some? ==> WfChars(name.value.chars) && AllWs(name.value.gap) && AllWs(name.value.after))
  }

  ghost predicate Wf(c: Syn)
    decreases c
  {
    match c
    case SNumber(text) => IsNumber(text)
    case SString(chars) => WfChars(chars)
    case SContainer(obj, inner, entries) =>
      AllWs(inner) && (entries != [] ==> inner == []) && WfEntries(obj, entries)
    case _ => true
  }

  ghost predicate WfEntry(obj: bool, e: Entry)
    decreases e
  {
    AllWs(e.pre) && AllWs(e.post) && WfName(obj, e.name) && Wf(e.value)
  }

  ghost predicate WfEntries(obj: bool, es: seq<Entry>)
    decreases es
  {
    es == [] || (WfEntry(obj, es[0]) && WfEntries(obj, es[1..]))
  }

  /** How deeply containers are nested. */
  function Depth(c: Syn): nat
    decreases c
  {
    if c.SContainer? then 1 + EntriesDepth(c.entries) else 0
  }

  function EntriesDepth(es: seq<Entry>): nat
    decreases es
  {
    if es == [] then 0 else Max(Depth(es[0].value), EntriesDepth(es[1..]))
  }

  // ---------- meaning ----------

  function NameText(e: Entry): bytes {
    if e.name.Some? then CharsText(e.name.value.chars) else []
  }

  function ToTree(c: Syn): JSON
    decreases c
  {
    match c
    case SNull => Null
    case SBool(b) => Bool(b)
    case SNumber(text) => Number(text)
    case SString(chars) => String(CharsText(chars))
    case SContainer(obj, inner, entries) => if obj then Object(ToMembers(entries)) else Array(ToElems(entries))
  }

  function ToElems(es: seq<Entry>): (r: seq<JSON>)
    ensures |r| == |es|
    ensures forall k :: 0 <= k < |es| ==> r[k] == ToTree(es[k].value)
    decreases es
  {
    seq(|es|, i requires 0 <= i < |es| => ToTree(es[i].value))
  }

  function ToMembers(es: seq<Entry>): (r: seq<Member>)
    ensures |r| == |es|
    ensures forall k :: 0 <= k < |es| ==> r[k] == Member(NameText(es[k]), ToTree(es[k].value))
    decreases es
  {
    seq(|es|, i requires 0 <= i < |es| => Member(NameText(es[i]), ToTree(es[i].value)))
  }

  /** A whole document: a value and the whitespace around it. */
  datatype Text = Text(pre: bytes, value: Syn, post: bytes)

  ghost predicate WfText(t: Text) {
    AllWs(t.pre) && AllWs(t.post) && Wf(t.value)
  }

  function TextBytes(t: Text): bytes {
    t.pre + SynBytes(t.value) + t.post
  }

  // ---------- small facts ----------

  lemma {:induction false} WfAt(obj: bool, es: seq<Entry>, k: nat)
    requires WfEntries(obj, es) && k < |es|
    ensures WfEntry(obj, es[k])
    decreases k
  {
    if k > 0 {
      WfAt(obj, es[1..], k - 1);
    }
  }

  lemma {:induction false} WfAll(obj: bool, es: seq<Entry>)
    requires forall k :: 0 <= k < |es| ==> WfEntry(obj, es[k])
    ensures WfEntries(obj, es)
  {
    if es != [] {
      WfAll(obj, es[1..]);
    }
  }

  /** The first byte of a value tells its kind; none is whitespace or punctuation. */
  lemma SynStart(c: Syn)
    requires Wf(c)
    ensures SynBytes(c) != []
    ensures var b := SynBytes(c)[0];
            !IsWs(b) && b != RBRACKET && b != RBRACE && b != COMMA && b != COLON
  {
    if c.SNumber? {
      NumberStart(c.text);
    }
  }
}
