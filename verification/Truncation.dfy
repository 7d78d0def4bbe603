/**
  What `doSerialize` makes of a Java object graph under the limits, as a value: the tree it writes, the element budget
  it leaves, the truncation counters it raises and the memory it asks for. Graphs may be cyclic.
  */
module Truncation {
  import opened Common
  import opened Unicode
  import opened WafObjects

  type JavaString = seq<unit16>

  /** The identity of an object; one that the graph does not know stands for null. */
  type Ref = int

  /** A Java value, by the branch of `doSerialize` that takes it. */
  datatype JavaObject =
    | JString(text: JavaString)
    | JDouble(bits: uint64)
    | JLong(long: int64)
    | JCollection(items: seq<Ref>)
    | JArray(items: seq<Ref>)
    | JIterable(items: seq<Ref>)
    | JMap(pairs: seq<JavaEntry>)
    | JBoolean(truth: bool)
    | JOther

  /** A key of a map: null, or an object with what its `toString` gives, which may be null too. */
  datatype Key = NullKey | Key(text: Option<JavaString>)

  datatype JavaEntry = JavaEntry(key: Key, value: Ref)

  type Graph = map<Ref, JavaObject>

  /** A Java int. */
  type int32 = i: int | -0x8000_0000 <= i < 0x8000_0000

  datatype Limits = Limits(maxDepth: int32, maxElements: int32, maxStringSize: int32)

  /** The truncation counters of `WafMetrics`. */
  datatype Counts = Counts(tooLong: nat, tooLarge: nat, tooDeep: nat) {
    function Plus(c: Counts): Counts {
      Counts(tooLong + c.tooLong, tooLarge + c.tooLarge, tooDeep + c.tooDeep)
    }
  }

  const ZERO: Counts := Counts(0, 0, 0)

  lemma PlusZero(c: Counts)
    ensures c.Plus(ZERO) == c
  {
  }

  /** What one call of `doSerialize` is given: a parameter name or null, and a value. */
  datatype Child = Child(name: Option<JavaString>, value: Ref)

  /** A request for string memory: the bytes that must be free, the bytes then used. */
  datatype Request = Request(reserve: nat, use: nat)

  /** How a call ends: with an exception, or with a tree, the remaining budget, the counters and the requests. */
  datatype Outcome =
    | Threw
    | Done(tree: WafObject, left: int, counts: Counts, records: seq<nat>, strings: seq<Request>)

  datatype OutcomeAll =
    | ThrewAll
    | DoneAll(trees: seq<WafObject>, left: int, counts: Counts, records: seq<nat>, strings: seq<Request>)

  // ---------------------------------------------------------------- strings

  /** `substring(0, max)` when the string is longer than max; a negative max throws. */
  function Cut(s: JavaString, max: int): Option<JavaString> {
    if |s| <= max then Some(s)
    else if max < 0 then None
    else Some(s[..max])
  }

  function CutCounts(s: JavaString, max: int): Counts {
    if |s| > max then Counts(1, 0, 0) else ZERO
  }

  /** The bytes `writeStringUnlimited` reserves: three for each code unit and the NUL. */
  function MaxBytes(s: JavaString): nat { 3 * |s| + 1 }

  /** The strings whose reservation is an int. */
  predicate Storable(s: JavaString) { MaxBytes(s) <= INT_MAX }

  function StringRequest(s: JavaString): (r: Request)
    ensures r.use <= r.reserve
  {
    Utf16ToUtf8Length(s);
    Request(MaxBytes(s), |Utf16ToUtf8(s)| + 1)
  }

  /** A name after the cut: None when the cut throws. */
  function CutName(name: Option<JavaString>, max: int): Option<Option<JavaString>> {
    match name
    case None => Some(None)
    case Some(s) => match Cut(s, max) case None => None case Some(t) => Some(Some(t))
  }

  function NameCounts(name: Option<JavaString>, max: int): Counts {
    match name case None => ZERO case Some(s) => CutCounts(s, max)
  }

  function NameBytesOf(name: Option<JavaString>): Option<seq<byte>> {
    match name case None => None case Some(s) => Some(Utf16ToUtf8(s))
  }

  predicate NameStorable(name: Option<JavaString>) {
    name.Some? ==> Storable(name.value)
  }

  function NameRequests(name: Option<JavaString>): seq<Request> {
    match name case None => [] case Some(s) => [StringRequest(s)]
  }

  // ---------------------------------------------------------------- objects

  predicate HasChildren(o: JavaObject) {
    o.JCollection? || o.JArray? || o.JIterable? || o.JMap?
  }

  function ContainerKind(o: JavaObject): Kind
    requires HasChildren(o)
  {
    if o.JMap? then Map else Array
  }

  /** The calls a container makes, one for each element: no name in a list, the key in a map. */
  function Children(o: JavaObject): (r: seq<Child>)
    requires HasChildren(o)
    ensures |r| == if o.JMap? then |o.pairs| else |o.items|
  {
    if o.JMap? then
      seq(|o.pairs|, i requires 0 <= i < |o.pairs| => Child(KeyOf(o.pairs[i]), o.pairs[i].value))
    else
      seq(|o.items|, i requires 0 <= i < |o.items| => Child(None, o.items[i]))
  }

  /** The parameter name of an entry: "" for a null key. */
  function KeyOf(e: JavaEntry): Option<JavaString> {
    match e.key case NullKey => Some([]) case Key(text) => text
  }

  /** The kind written for a value without children, other than a string. */
  function ScalarKind(o: JavaObject): Kind
    requires !HasChildren(o) && !o.JString?
  {
    match o
    case JDouble(bits) => Float(bits)
    case JLong(v) => Signed(v)
    case JBoolean(b) => Bool(b)
    case _ => Null
  }

  // ---------------------------------------------------------------- the specification of doSerialize

  /** The measure on which serialization ends, whatever cycles the graph has. */
  function Levels(depth: int): nat {
    if depth < 0 then 0 else depth + 1
  }

  function Leaf(name: Option<JavaString>, kind: Kind, left: int, counts: Counts, strings: seq<Request>): Outcome {
    Done(WafObject(NameBytesOf(name), kind, []), left, counts, [], NameRequests(name) + strings)
  }

  /** The requests for records a container with n children makes. */
  function RecordRequests(n: nat): seq<nat> {
    if n == 0 then [] else [n]
  }

  function Ser(g: Graph, lim: Limits, c: Child, rem: int, depth: int): Outcome
    decreases Levels(depth), 0
  {
    var cut := CutName(c.name, lim.maxStringSize);
    if cut == None || !NameStorable(cut.value) then Threw
    else SerNamed(g, lim, cut.value, NameCounts(c.name, lim.maxStringSize), c.value, rem - 1, depth)
  }

  /** The rest of the call, once the name is cut and the budget is decremented. */
  function SerNamed(g: Graph, lim: Limits, name: Option<JavaString>, counts: Counts, v: Ref, left: int, depth: int): Outcome
    decreases Levels(depth), 0, 0
  {
    if left < 0 then Leaf(name, Map, left, counts.Plus(Counts(0, 1, 0)), [])
    else if depth < 0 then Leaf(name, Map, left, counts.Plus(Counts(0, 0, 1)), [])
    else if v !in g then Leaf(name, Null, left, counts, [])
    else if g[v].JString? then
      match Cut(g[v].text, lim.maxStringSize)
      case None => Threw
      case Some(s) =>
        if !Storable(s) then Threw
        else Leaf(name, Str(Utf16ToUtf8(s)), left, counts.Plus(CutCounts(g[v].text, lim.maxStringSize)), [StringRequest(s)])
    else if !HasChildren(g[v]) then Leaf(name, ScalarKind(g[v]), left, counts, [])
    else
      var kids := Children(g[v]);
      var n := Min(|kids|, left);
      match SerAll(g, lim, kids[..n], left, depth - 1)
      case ThrewAll => Threw
      case DoneAll(trees, left', counts', records, strings) =>
        Done(WafObject(NameBytesOf(name), ContainerKind(g[v]), trees), left', counts.Plus(counts'),
             RecordRequests(n) + records, NameRequests(name) + strings)
  }

  function SerAll(g: Graph, lim: Limits, cs: seq<Child>, rem: int, depth: int): (r: OutcomeAll)
    ensures r.DoneAll? ==> |r.trees| == |cs|
    decreases Levels(depth), 1 + |cs|
  {
    if cs == [] then DoneAll([], rem, ZERO, [], [])
    else
      match Ser(g, lim, cs[0], rem, depth)
      case Threw => ThrewAll
      case Done(tree, left, counts, records, strings) =>
        match SerAll(g, lim, cs[1..], left, depth)
        case ThrewAll => ThrewAll
        case DoneAll(trees, left', counts', records', strings') =>
          DoneAll([tree] + trees, left', counts.Plus(counts'), records + records', strings + strings')
  }

  /** A whole run, for the root of a map: the limits apply to each run anew. */
  function Truncate(g: Graph, lim: Limits, root: Ref): Outcome {
    Ser(g, lim, Child(None, root), lim.maxElements, lim.maxDepth)
  }

  lemma TruncateIs(g: Graph, lim: Limits, root: Ref)
    ensures Truncate(g, lim, root) == Ser(g, lim, Child(None, root), lim.maxElements, lim.maxDepth)
  {
    hide Ser;
  }

  // ---------------------------------------------------------------- the branches of doSerialize, one at a time

  /** The calls a container makes within a budget of left elements. */
  function Admitted(o: JavaObject, left: nat): seq<Child>
    requires HasChildren(o)
  {
    Children(o)[..Min(|Children(o)|, left)]
  }

  predicate NameCuts(lim: Limits, c: Child) {
    var cut := CutName(c.name, lim.maxStringSize);
    cut.Some? && NameStorable(cut.value)
  }

  /** The value is a container and is entered. */
  predicate Enters(g: Graph, c: Child, rem: int, depth: int) {
    rem > 0 && depth >= 0 && c.value in g && HasChildren(g[c.value])
  }

  lemma EnteredCase(g: Graph, lim: Limits, c: Child, rem: int, depth: int)
    requires Enters(g, c, rem, depth)
    ensures var r := Ser(g, lim, c, rem, depth); var kids := Admitted(g[c.value], rem - 1);
      var all := SerAll(g, lim, kids, rem - 1, depth - 1);
      && (r.Done? <==> NameCuts(lim, c) && all.DoneAll?)
      && (r.Done? ==>
            && r.tree.kind == ContainerKind(g[c.value]) && r.tree.entries == all.trees
            && r.tree.name == NameBytesOf(CutName(c.name, lim.maxStringSize).value)
            && r.left == all.left
            && r.counts == NameCounts(c.name, lim.maxStringSize).Plus(all.counts)
            && r.records == RecordRequests(|kids|) + all.records
            && r.strings == NameRequests(CutName(c.name, lim.maxStringSize).value) + all.strings)
  {
    hide SerAll, Children, CutName, NameBytesOf, NameRequests, NameCounts, ContainerKind, RecordRequests;
  }

  lemma LeafCase(g: Graph, lim: Limits, c: Child, rem: int, depth: int)
    requires !Enters(g, c, rem, depth)
    ensures var r := Ser(g, lim, c, rem, depth);
      r.Done? ==>
        && NameCuts(lim, c)
        && r.tree.entries == [] && r.left == rem - 1 && r.records == []
        && r.tree.name == NameBytesOf(CutName(c.name, lim.maxStringSize).value)
        && (rem <= 0 ==> r.counts.tooLarge == 1)
        && (rem > 0 ==> r.counts.tooLarge == 0)
  {
    hide SerAll, Children, CutName, NameBytesOf, NameRequests, Utf16ToUtf8, ScalarKind;
  }

  lemma AllStep(g: Graph, lim: Limits, cs: seq<Child>, rem: int, depth: int)
    requires cs != []
    ensures var first := Ser(g, lim, cs[0], rem, depth); var all := SerAll(g, lim, cs, rem, depth);
      && (first.Threw? ==> all.ThrewAll?)
      && (first.Done? ==>
            var rest := SerAll(g, lim, cs[1..], first.left, depth);
            && (rest.ThrewAll? ==> all.ThrewAll?)
            && (rest.DoneAll? ==>
                  all == DoneAll([first.tree] + rest.trees, rest.left, first.counts.Plus(rest.counts),
                                 first.records + rest.records, first.strings + rest.strings)))
  {
    hide Ser;
  }
}
