/**
 Printed workflows. A `Layout` is a document tree together with the freedom a writer has in
 printing it: how deep each block is nested, how far a compact item is indented, which blank
 lines and whole-line comments stand before each entry or item, and what trails its line.
 */
module WorkflowLayout {
  import opened Text
  import opened WorkflowLexis
  import opened WorkflowPlain
  import opened WorkflowFlow
  import P = WorkflowParser

  /** A line of a literal block scalar: blank, or text relative to the block's margin. */
  datatype BodyLine = Blank(pad: string) | Text(text: string)

  datatype Layout =
    | Absent
    | Plain(text: string)
    | QuotedText(quote: char, text: string)
    | Flow(pad: string, parts: seq<Part>)
    | Literal(header: string, step: nat, body: seq<BodyLine>)
    | Map(step: nat, entries: seq<Entry>)
    | Seq(step: nat, items: seq<Item>)

  datatype Entry = Entry(noise: seq<string>, key: Key, value: Layout, tail: string)

  datatype Item = Item(noise: seq<string>, value: Layout, tail: string)

  // ---------- printing ----------

  function PrintBody(body: seq<BodyLine>, margin: nat): (r: seq<string>)
    ensures |r| == |body|
  {
    if body == [] then []
    else [match body[0] case Blank(pad) => pad case Text(t) => Spaces(margin) + t] + PrintBody(body[1..], margin)
  }

  /** What an entry's own line holds of its value. */
  function Head(value: Layout): string {
    match value
    case Plain(t) => t
    case QuotedText(q, t) => InQuotes(q, t)
    case Flow(pad, parts) => FlowText(pad, parts)
    case Literal(header, _, _) => header
    case _ => []
  }

  function EntryHead(e: Entry): string {
    EntryText(e.key, Head(e.value))
  }

  /** The lines below an entry's own, for an entry at indentation `n`. */
  function PrintBelow(value: Layout, n: nat): seq<string>
    decreases value
  {
    match value
    case Absent => []
    case Plain(_) => []
    case QuotedText(_, _) => []
    case Flow(_, _) => []
    case Literal(_, step, body) => PrintBody(body, n + 1 + step)
    case Map(step, entries) => PrintEntries(entries, n + 1 + step)
    case Seq(step, items) => PrintItems(items, n + step)
  }

  function PrintEntries(entries: seq<Entry>, n: nat): seq<string>
    decreases entries
  {
    if entries == [] then []
    else
      entries[0].noise
      + ([Spaces(n) + EntryHead(entries[0]) + entries[0].tail] + PrintBelow(entries[0].value, n))
      + PrintEntries(entries[1..], n)
  }

  /** An item at indentation `n`: a mapping starts on the dash's line, a sequence below it. */
  function PrintItem(value: Layout, n: nat, tail: string): seq<string>
    decreases value
  {
    match value
    case Absent => [Spaces(n) + "-" + tail]
    case Plain(t) => [Spaces(n) + DashText(1, t) + tail]
    case QuotedText(q, t) => [Spaces(n) + DashText(1, InQuotes(q, t)) + tail]
    case Flow(pad, parts) => [Spaces(n) + DashText(1, FlowText(pad, parts)) + tail]
    case Literal(header, step, body) => [Spaces(n) + DashText(1, header) + tail] + PrintBody(body, n + 1 + step)
    case Map(step, entries) =>
      if entries == [] then []
      else
        [Spaces(n) + DashText(1 + step, EntryHead(entries[0])) + tail]
        + PrintBelow(entries[0].value, n + 2 + step) + PrintEntries(entries[1..], n + 2 + step)
    case Seq(step, items) => [Spaces(n) + "-" + tail] + PrintItems(items, n + 1 + step)
  }

  function PrintItems(items: seq<Item>, n: nat): seq<string>
    decreases items
  {
    if items == [] then []
    else items[0].noise + PrintItem(items[0].value, n, items[0].tail) + PrintItems(items[1..], n)
  }

  // ---------- which layouts are printable ----------

  /** The indentation of the key or dash whose block scalar is still open after this value. */
  function Open(value: Layout, n: nat): Option<nat>
    decreases value
  {
    match value
    case Literal(_, _, _) => Some(n)
    case Map(step, entries) => OpenEntries(entries, n + 1 + step)
    case Seq(step, items) => OpenItems(items, n + step)
    case _ => None
  }

  function OpenEntries(entries: seq<Entry>, n: nat): Option<nat>
    decreases entries
  {
    if entries == [] then None
    else if |entries| == 1 then Open(entries[0].value, n)
    else OpenEntries(entries[1..], n)
  }

  function OpenItem(value: Layout, n: nat): Option<nat>
    decreases value
  {
    match value
    case Literal(_, _, _) => Some(n)
    case Map(step, entries) => OpenEntries(entries, n + 2 + step)
    case Seq(step, items) => OpenItems(items, n + 1 + step)
    case _ => None
  }

  function OpenItems(items: seq<Item>, n: nat): Option<nat>
    decreases items
  {
    if items == [] then None
    else if |items| == 1 then OpenItem(items[0].value, n)
    else OpenItems(items[1..], n)
  }

  /** The first line that is not blank, if any, is no deeper than `limit`. */
  predicate Shallow(lines: seq<string>, limit: nat) {
    lines == [] || if IsBlank(lines[0]) then Shallow(lines[1..], limit) else Indent(lines[0]) <= limit
  }

  /** Noise lies outside the block scalar still open before it: a comment deeper than that
      block's key would be a line of the block. */
  predicate NoiseOk(noise: seq<string>, open: Option<nat>) {
    (forall line :: line in noise ==> Ignorable(line)) && (open.Some? ==> Shallow(noise, open.value))
  }

  /** Text lines carry text, the first of them flush with the margin; the last line is not blank. */
  ghost predicate BodyOk(body: seq<BodyLine>, flush: bool) {
    body == [] ||
    match body[0]
    case Blank(pad) => IsBlank(pad) && |body| > 1 && BodyOk(body[1..], flush)
    case Text(t) => !IsBlank(t) && (flush ==> t[0] != ' ') && BodyOk(body[1..], false)
  }

  ghost predicate ValueOk(value: Layout, n: nat)
    decreases value
  {
    match value
    case Absent => true
    case Plain(t) => PlainValue(t)
    case QuotedText(q, t) => Quotable(q, t)
    case Flow(pad, parts) => FlowOk(pad, parts)
    case Literal(header, _, body) => BlockHeader(header) && BodyOk(body, true)
    case Map(step, entries) => entries != [] && EntriesOk(entries, n + 1 + step, None)
    case Seq(step, items) => items != [] && ItemsOk(items, n + step, None)
  }

  ghost predicate EntriesOk(entries: seq<Entry>, n: nat, open: Option<nat>)
    decreases entries
  {
    entries == [] ||
    (&& NoiseOk(entries[0].noise, open) && TailOk(entries[0].tail)
     && KeyOk(entries[0].key) && ValueOk(entries[0].value, n)
     && EntriesOk(entries[1..], n, Open(entries[0].value, n)))
  }

  ghost predicate ItemOk(value: Layout, n: nat)
    decreases value
  {
    match value
    case Absent => true
    case Plain(t) => PlainItem(t)
    case QuotedText(q, t) => Quotable(q, t)
    case Flow(pad, parts) => FlowOk(pad, parts) && NoColon(FlowText(pad, parts))
    case Literal(header, _, body) => BlockHeader(header) && BodyOk(body, true)
    case Map(step, entries) =>
      && entries != [] && entries[0].noise == [] && entries[0].tail == []
      && EntriesOk(entries, n + 2 + step, None)
    case Seq(step, items) => items != [] && ItemsOk(items, n + 1 + step, None)
  }

  ghost predicate ItemsOk(items: seq<Item>, n: nat, open: Option<nat>)
    decreases items
  {
    items == [] ||
    (&& NoiseOk(items[0].noise, open) && ItemOk(items[0].value, n) && TailOk(items[0].tail)
     && ItemsOk(items[1..], n, OpenItem(items[0].value, n)))
  }

  // ---------- what a layout means, and what the parser reads ----------

  function BodyText(body: seq<BodyLine>): seq<string> {
    if body == [] then []
    else [match body[0] case Blank(_) => [] case Text(t) => t] + BodyText(body[1..])
  }

  /** The tree the layout prints. */
  function Meaning(value: Layout): Value
    decreases value
  {
    match value
    case Absent => Null
    case Plain(t) => Scalar(t)
    case QuotedText(_, t) => Scalar(t)
    case Flow(_, parts) => List(PartsMean(parts))
    case Literal(_, _, body) => Scalar(P.JoinLines(BodyText(body)))
    case Map(_, entries) => Dict(MeaningEntries(entries))
    case Seq(_, items) => List(MeaningItems(items))
  }

  function MeaningEntries(entries: seq<Entry>): seq<(string, Value)>
    decreases entries
  {
    if entries == [] then []
    else [(entries[0].key.name, Meaning(entries[0].value))] + MeaningEntries(entries[1..])
  }

  function MeaningItems(items: seq<Item>): seq<Value>
    decreases items
  {
    if items == [] then [] else [Meaning(items[0].value)] + MeaningItems(items[1..])
  }

  // ---------- where the parser stops ----------

  /** Some line of the body is neither blank nor looks like a comment. */
  predicate HasContent(body: seq<BodyLine>) {
    body != [] && ((body[0].Text? && !Ignorable(body[0].text)) || HasContent(body[1..]))
  }

  /** A line with content is printed below the entry's own. */
  predicate Below(value: Layout) {
    match value
    case Literal(_, _, body) => HasContent(body)
    case Map(_, _) => true
    case Seq(_, _) => true
    case _ => false
  }

  /** An item that starts with a quote: the parser takes its line for a scalar. */
  predicate QuotedFirst(value: Layout) {
    value.Map? && value.entries != [] && value.entries[0].key.Quoted?
  }

  /** Reading the value gets stuck on a line deeper than any the parser then looks for. */
  predicate Stops(value: Layout)
    decreases value
  {
    match value
    case Map(_, entries) => StopsEntries(entries)
    case Seq(_, items) => StopsItems(items)
    case _ => false
  }

  predicate StopsEntries(entries: seq<Entry>)
    decreases entries
  {
    entries != [] && (Stops(entries[0].value) || StopsEntries(entries[1..]))
  }

  /** The dash's line is read, and the lines below it are not. */
  predicate StopsItem(value: Layout)
    decreases value
  {
    match value
    case Literal(_, _, body) => HasContent(body)
    case Map(_, entries) =>
      if QuotedFirst(value) then Below(entries[0].value) || |entries| > 1 else StopsEntries(entries)
    case Seq(_, items) => StopsItems(items)
    case _ => false
  }

  predicate StopsItems(items: seq<Item>)
    decreases items
  {
    items != [] && (StopsItem(items[0].value) || StopsItems(items[1..]))
  }

  /** The tree the parser returns: it ends where the parser stops, an absent item is given all
      the items after it, and a flow sequence is split at every comma. */
  function Read(value: Layout): Value
    decreases value, 0
  {
    match value
    case Absent => Null
    case Plain(t) => Scalar(t)
    case QuotedText(_, t) => Scalar(t)
    case Flow(pad, parts) => if NoCommas(parts) then List(PartsMean(parts)) else ParseScalar(FlowText(pad, parts))
    case Literal(_, _, body) => Scalar(P.JoinLines(BodyText(body)))
    case Map(_, entries) => Dict(ReadEntries([], entries))
    case Seq(_, items) => List(ReadItems(items))
  }

  function ReadEntries(acc: seq<(string, Value)>, entries: seq<Entry>): seq<(string, Value)>
    decreases entries
  {
    if entries == [] then acc
    else
      var d := P.Put(acc, entries[0].key.name, Read(entries[0].value));
      if Stops(entries[0].value) then d else ReadEntries(d, entries[1..])
  }

  /** An item that opens a block scalar, or starts with a quote is read as its own line. */
  function ReadItem(value: Layout): Value
    decreases value, 1
  {
    if value.Literal? then Scalar(value.header)
    else if QuotedFirst(value) then Scalar(Unquoted(EntryHead(value.entries[0])))
    else Read(value)
  }

  function ReadItems(items: seq<Item>): seq<Value>
    decreases items
  {
    if items == [] then []
    else if items[0].value.Absent? && |items| > 1 then [List(ReadItems(items[1..]))]
    else [ReadItem(items[0].value)] + if StopsItem(items[0].value) then [] else ReadItems(items[1..])
  }
}
