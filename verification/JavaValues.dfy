/**
  Java objects by the classes that the two converters test for, and the branch each of them takes. A class may be a
  character sequence, a number, an iterable and a map at once, and the two test in different orders.
  */
module JavaValues {
  import opened Common
  import opened Unicode
  import opened WafObjects
  import opened Truncation

  /** `Double`, `Float` and `BigDecimal`, and every other `Number`. */
  datatype Number = Floating(bits: uint64) | Integral(long: int64)

  /**
    A `CharBuffer` over an array that can be had by `array()`: its element i is that of the array at i plus the offset,
    and its characters are those from the position to the limit.
    */
  datatype ArrayChars = ArrayChars(backing: JavaString, offset: nat, position: nat, limit: nat)

  predicate WithinArray(b: ArrayChars) {
    b.position <= b.limit && b.offset + b.limit <= |b.backing|
  }

  type ArrayBuffer = b: ArrayChars | WithinArray(b) witness ArrayChars([], 0, 0, 0)

  /** The characters of the buffer, which `length`, `charAt` and an encoder go by. */
  function BufferText(b: ArrayBuffer): (s: JavaString)
    ensures |s| == b.limit - b.position
  {
    b.backing[b.offset + b.position..b.offset + b.limit]
  }

  /** What `_get_char_buffer_data` points out: it has no use for the offset. */
  function TextFromStart(b: ArrayBuffer): (s: JavaString)
    ensures |s| == b.limit - b.position
  {
    b.backing[b.position..b.limit]
  }

  /**
    `String` and `Boolean` are final, no class outside the JDK can extend `CharBuffer`, and arrays implement none of the
    interfaces tested for. Any other object is described by what it implements: `CharSequence`, `Number`, `Iterable`
    (perhaps `Collection`), `Map`. The elements of a primitive array are those that reflection boxes.
    */
  datatype JavaValue =
    | StringValue(text: JavaString)
    | BufferValue(buffer: ArrayBuffer)
    | BooleanValue(truth: bool)
    | ObjectArray(items: seq<Ref>)
    | PrimitiveArray(items: seq<Ref>)
    | Instance(chars: Option<JavaString>, number: Option<Number>, elements: Option<seq<Ref>>, collection: bool,
               pairs: Option<seq<JavaEntry>>)

  type Values = map<Ref, JavaValue>

  function NumberBranch(n: Number): JavaObject {
    match n case Floating(bits) => JDouble(bits) case Integral(v) => JLong(v)
  }

  /** The branch of `doSerialize`: CharSequence, Number, Collection, array, Iterable, Map, Boolean, anything else. */
  function Branch(o: JavaValue): JavaObject {
    match o
    case StringValue(text) => JString(text)
    case BufferValue(buffer) => JString(BufferText(buffer))
    case BooleanValue(b) => JBoolean(b)
    case ObjectArray(items) => JArray(items)
    case PrimitiveArray(items) => JArray(items)
    case Instance(chars, number, elements, collection, pairs) =>
      if chars.Some? then JString(chars.value)
      else if number.Some? then NumberBranch(number.value)
      else if elements.Some? then (if collection then JCollection(elements.value) else JIterable(elements.value))
      else if pairs.Some? then JMap(pairs.value)
      else JOther
  }

  /** The objects as `doSerialize` sees them. */
  function Serialized(vs: Values): (g: Graph)
    ensures g.Keys == vs.Keys && forall v :: v in vs ==> g[v] == Branch(vs[v])
  {
    map v | v in vs :: Branch(vs[v])
  }

  // ---------------------------------------------------------------- the branches of _convert_checked

  /** What is iterated: an element, a map entry with its key's text if there is any, or a primitive that cannot be read. */
  datatype Element = Item(value: Ref) | Entry(key: Option<JavaString>, value: Ref) | Primitive

  /** `GetObjectArrayElement` on a primitive array, a call on a null key and the length of a null string are undefined in JNI. */
  predicate Readable(e: Element) {
    e.Item? || (e.Entry? && e.key.Some?)
  }

  /** An array, else a Map, else an Iterable. */
  predicate IsNativeContainer(o: JavaValue) {
    o.ObjectArray? || o.PrimitiveArray? || (o.Instance? && (o.pairs.Some? || o.elements.Some?))
  }

  function NativeKind(o: JavaValue): (k: Kind)
    requires IsNativeContainer(o)
    ensures IsContainer(k)
  {
    if o.Instance? && o.pairs.Some? then Map else Array
  }

  function Items(vs: seq<Ref>): (es: seq<Element>)
    ensures |es| == |vs| && forall i :: 0 <= i < |vs| ==> es[i] == Item(vs[i])
  {
    seq(|vs|, i requires 0 <= i < |vs| => Item(vs[i]))
  }

  /** What `toString` on the key gives; none for a null key, and for a null string. */
  function NativeKey(e: JavaEntry): Option<JavaString> {
    match e.key case NullKey => None case Key(text) => text
  }

  function Entries(ps: seq<JavaEntry>): (es: seq<Element>)
    ensures |es| == |ps| && forall i :: 0 <= i < |ps| ==> es[i] == Entry(NativeKey(ps[i]), ps[i].value)
  {
    seq(|ps|, i requires 0 <= i < |ps| => Entry(NativeKey(ps[i]), ps[i].value))
  }

  function NativeElements(o: JavaValue): seq<Element>
    requires IsNativeContainer(o)
  {
    match o
    case ObjectArray(items) => Items(items)
    case PrimitiveArray(items) => seq(|items|, i => Primitive)
    case Instance(_, _, elements, _, pairs) => if pairs.Some? then Entries(pairs.value) else Items(elements.value)
  }

  // ---------------------------------------------------------------- where they agree

  /**
    The object is of one known kind, its elements can be read, and so both take the branch of that kind; a character
    buffer reads the same, up to unpaired surrogates, with and without its array offset.
    */
  predicate Alike(o: JavaValue) {
    match o
    case StringValue(_) => true
    case BufferValue(buffer) => Repair(BufferText(buffer)) == Repair(TextFromStart(buffer))
    case BooleanValue(_) => true
    case ObjectArray(_) => true
    case PrimitiveArray(items) => items == []
    case Instance(chars, number, elements, _, pairs) =>
      if chars.Some? || number.Some? then elements.None? && pairs.None?
      else if elements.Some? then pairs.None?
      else pairs.Some? && forall i :: 0 <= i < |pairs.value| ==> NativeKey(pairs.value[i]).Some?
  }

  /** Every object met down to the given depth is such an object. */
  predicate AlikeDown(vs: Values, c: Child, depth: int)
    decreases Levels(depth), 0
  {
    depth < 0 || c.value !in vs ||
    var o := Branch(vs[c.value]);
    Alike(vs[c.value]) && (HasChildren(o) ==> AllAlikeDown(vs, Children(o), depth - 1))
  }

  predicate AllAlikeDown(vs: Values, cs: seq<Child>, depth: int)
    decreases Levels(depth), 1 + |cs|
  {
    cs != [] ==> AlikeDown(vs, cs[0], depth) && AllAlikeDown(vs, cs[1..], depth)
  }
}
