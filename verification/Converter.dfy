/** `_convert_checked` of waf_jni.c: the budgeted conversion of a Java value straight to a native tree. */
module Converter {
  import opened Common
  import opened Unicode
  import opened WafObjects
  import opened Truncation
  import opened JavaValues
  import opened Budget

  // ---------------------------------------------------------------- the specification

  /** The part of `struct _limits` that is read only. */
  datatype Caps = Caps(maxDepth: int32, maxString: int32)

  /** An exception for the depth, or a call that JNI leaves undefined. */
  datatype Stop = TooDeep | Undefined

  datatype Result =
    | Stopped(why: Stop)
    | Converted(tree: WafObject, left: int)

  datatype ResultAll =
    | StoppedAll(why: Stop)
    | ConvertedAll(trees: seq<WafObject>, left: int)

  /** `java_to_utf8_limited_checked`: a negative limit is none. */
  function Limited(s: JavaString, max: int): seq<byte> {
    Utf16ToUtf8(if max < 0 || |s| <= max then s else s[..max])
  }

  /** What is added to a container: a map entry gets its key as its name. */
  function Named(e: Element, tree: WafObject, max: int): WafObject
    requires Readable(e)
  {
    if e.Item? then tree else tree.(name := Some(Limited(e.key.value, max)))
  }

  /**
    A value without elements: String, else CharSequence (whose length cannot be cut to a negative limit, and which for a
    buffer over an array is read from the start of that array), else Number, else Boolean. Anything else is left as
    `_pwinput_invalid`, which is an empty map.
    */
  function LeafKind(o: JavaValue, max: int): Option<Kind>
    requires !IsNativeContainer(o)
  {
    match o
    case StringValue(text) => Some(Str(Limited(text, max)))
    case BufferValue(buffer) => if max < 0 then None else Some(Str(Limited(TextFromStart(buffer), max)))
    case BooleanValue(b) => Some(Bool(b))
    case Instance(chars, number, _, _, _) =>
      if chars.Some? then (if max < 0 then None else Some(Str(Limited(chars.value, max))))
      else if number.Some? then Some(match number.value case Floating(bits) => Float(bits) case Integral(v) => Signed(v))
      else Some(Map)
  }

  function Unnamed(k: Kind, es: seq<WafObject>): WafObject {
    WafObject(None, k, es)
  }

  /** The levels still allowed below the given one. */
  function LevelsLeft(caps: Caps, level: nat): nat {
    if level > caps.maxDepth then 0 else caps.maxDepth - level + 1
  }

  function Convert(vs: Values, caps: Caps, v: Ref, budget: int, level: nat): Result
    decreases LevelsLeft(caps, level), 0
  {
    var left := budget - 1;
    if level > caps.maxDepth then Stopped(TooDeep)
    else if v !in vs then Converted(Unnamed(Null, []), left)
    else if !IsNativeContainer(vs[v]) then
      match LeafKind(vs[v], caps.maxString)
      case None => Stopped(Undefined)
      case Some(kind) => Converted(Unnamed(kind, []), left)
    else if level >= caps.maxDepth then Converted(Unnamed(NativeKind(vs[v]), []), left)
    else
      match ConvertAll(vs, caps, NativeElements(vs[v]), left, level + 1)
      case StoppedAll(why) => Stopped(why)
      case ConvertedAll(trees, left') => Converted(Unnamed(NativeKind(vs[v]), trees), left')
  }

  /** The elements up to the one before which the budget is used up. */
  function ConvertAll(vs: Values, caps: Caps, es: seq<Element>, budget: int, level: nat): (r: ResultAll)
    ensures r.ConvertedAll? ==> |r.trees| <= |es|
    decreases LevelsLeft(caps, level), 1 + |es|
  {
    if es == [] || budget <= 0 then ConvertedAll([], budget)
    else if !Readable(es[0]) then StoppedAll(Undefined)
    else
      match Convert(vs, caps, es[0].value, budget, level)
      case Converted(tree, left) =>
        (match ConvertAll(vs, caps, es[1..], left, level)
         case StoppedAll(why) => StoppedAll(why)
         case ConvertedAll(trees, left') => ConvertedAll([Named(es[0], tree, caps.maxString)] + trees, left'))
      case Stopped(why) => StoppedAll(why)
  }

  // ---------------------------------------------------------------- the conversion

  class NativeLimits {
    var maxElements: int
    const caps: Caps

    constructor (maxDepth: int32, maxElements: int, maxString: int32)
      ensures this.maxElements == maxElements && caps == Caps(maxDepth, maxString)
    {
      this.maxElements := maxElements;
      caps := Caps(maxDepth, maxString);
    }
  }

  /** `_convert_checked`. The budget is shared by the whole recursion. */
  method ConvertChecked(vs: Values, v: Ref, lims: NativeLimits, level: nat) returns (r: Result)
    modifies lims`maxElements
    ensures r == Convert(vs, lims.caps, v, old(lims.maxElements), level)
    ensures r.Converted? ==> lims.maxElements == r.left
    decreases LevelsLeft(lims.caps, level), 0
  {
    lims.maxElements := lims.maxElements - 1;
    if level > lims.caps.maxDepth {
      return Stopped(TooDeep);
    }
    hide ConvertAll, NativeElements, LeafKind, NativeKind;
    if v !in vs {
      return Converted(Unnamed(Null, []), lims.maxElements);
    }
    if !IsNativeContainer(vs[v]) {
      var kind := LeafKind(vs[v], lims.caps.maxString);
      return if kind.None? then Stopped(Undefined) else Converted(Unnamed(kind.value, []), lims.maxElements);
    }
    if level >= lims.caps.maxDepth {
      return Converted(Unnamed(NativeKind(vs[v]), []), lims.maxElements);
    }
    var trees := ConvertElements(vs, NativeElements(vs[v]), lims, level + 1);
    match trees
    case StoppedAll(why) => return Stopped(why);
    case ConvertedAll(es, left) => return Converted(Unnamed(NativeKind(vs[v]), es), left);
  }

  /** The loops over an array, the entries of a map or an iterable. */
  method ConvertElements(vs: Values, es: seq<Element>, lims: NativeLimits, level: nat) returns (r: ResultAll)
    modifies lims`maxElements
    ensures r == ConvertAll(vs, lims.caps, es, old(lims.maxElements), level)
    ensures r.ConvertedAll? ==> lims.maxElements == r.left
    decreases LevelsLeft(lims.caps, level), 1
  {
    hide Convert, Named;
    ghost var goal := ConvertAll(vs, lims.caps, es, lims.maxElements, level);
    var result: seq<WafObject> := [];
    var i := 0;
    assert es[0..] == es;
    while i < |es|
      invariant 0 <= i <= |es|
      invariant goal == Joined(result, ConvertAll(vs, lims.caps, es[i..], lims.maxElements, level))
    {
      assert es[i..][0] == es[i] && es[i..][1..] == es[i + 1..];
      if lims.maxElements <= 0 {
        break;
      }
      if !Readable(es[i]) {
        return StoppedAll(Undefined);
      }
      var tree := ConvertChecked(vs, es[i].value, lims, level);
      if !tree.Converted? {
        return StoppedAll(tree.why);
      }
      ghost var rest := ConvertAll(vs, lims.caps, es[i + 1..], lims.maxElements, level);
      Added(result, Named(es[i], tree.tree, lims.caps.maxString), if rest.ConvertedAll? then rest.trees else []);
      result := result + [Named(es[i], tree.tree, lims.caps.maxString)];
      i := i + 1;
    }
    assert result + [] == result;
    return ConvertedAll(result, lims.maxElements);
  }

  lemma Added(a: seq<WafObject>, x: WafObject, b: seq<WafObject>)
    ensures a + ([x] + b) == a + [x] + b
  {
  }

  /** What has been converted, and what is still to come. */
  function Joined(sofar: seq<WafObject>, rest: ResultAll): ResultAll {
    match rest
    case StoppedAll(why) => StoppedAll(why)
    case ConvertedAll(trees, left) => ConvertedAll(sofar + trees, left)
  }

  // ---------------------------------------------------------------- the budget

  /**
    A call whose level is within the depth never reports that it is too deep; it writes as many nodes as it takes from
    the budget, never more than the budget if that is positive, and no level deeper than the limit.
    */
  lemma {:induction false} ConvertBudget(vs: Values, caps: Caps, v: Ref, budget: int, level: nat)
    requires level <= caps.maxDepth
    ensures var c := Convert(vs, caps, v, budget, level);
      && c != Stopped(TooDeep)
      && (c.Converted? ==>
            Size(c.tree) == budget - c.left && (budget >= 1 ==> c.left >= 0) && level + Height(c.tree) <= caps.maxDepth)
    decreases LevelsLeft(caps, level), 0
  {
    hide ConvertAll, NativeElements, LeafKind, NativeKind;
    NoEntries();
    if v in vs && IsNativeContainer(vs[v]) && level < caps.maxDepth {
      ConvertAllBudget(vs, caps, NativeElements(vs[v]), budget - 1, level + 1);
    }
  }

  lemma {:induction false} ConvertAllBudget(vs: Values, caps: Caps, es: seq<Element>, budget: int, level: nat)
    requires level <= caps.maxDepth
    ensures var c := ConvertAll(vs, caps, es, budget, level);
      && c != StoppedAll(TooDeep)
      && (c.ConvertedAll? ==>
            && SizeAll(c.trees) == budget - c.left && (budget >= 0 ==> c.left >= 0) && (budget <= 0 ==> c.trees == [])
            && level + HeightAll(c.trees) <= caps.maxDepth)
    decreases LevelsLeft(caps, level), 1 + |es|
  {
    hide Convert, Named;
    if es != [] && budget > 0 && Readable(es[0]) {
      ConvertBudget(vs, caps, es[0].value, budget, level);
      var c := Convert(vs, caps, es[0].value, budget, level);
      if c.Converted? {
        ConvertAllBudget(vs, caps, es[1..], c.left, level);
        NamedShape(es[0], c.tree, caps.maxString);
        var rest := ConvertAll(vs, caps, es[1..], c.left, level);
        if rest.ConvertedAll? {
          assert ([Named(es[0], c.tree, caps.maxString)] + rest.trees)[1..] == rest.trees;
        }
      }
    }
  }

  lemma NamedShape(e: Element, tree: WafObject, max: int)
    requires Readable(e)
    ensures Size(Named(e, tree, max)) == Size(tree) && Height(Named(e, tree, max)) == Height(tree)
  {
  }

  /** From level 0, with a depth limit that is not negative: the limits bound the result, whatever the value refers to. */
  lemma ConvertWithinLimits(vs: Values, caps: Caps, v: Ref, maxElements: int)
    requires caps.maxDepth >= 0
    ensures var c := Convert(vs, caps, v, maxElements, 0);
      c.Converted? ==> Size(c.tree) <= Max(1, maxElements) && Height(c.tree) <= caps.maxDepth
  {
    ConvertBudget(vs, caps, v, maxElements, 0);
    if maxElements <= 0 {
      ExhaustedIsLeaf(vs, caps, v, maxElements);
    }
  }

  lemma ExhaustedIsLeaf(vs: Values, caps: Caps, v: Ref, budget: int)
    requires budget <= 0 && caps.maxDepth >= 0
    ensures var c := Convert(vs, caps, v, budget, 0); c.Converted? ==> c.tree.entries == [] && Size(c.tree) == 1
  {
    hide LeafKind, NativeElements, Convert;
    ConvertBudget(vs, caps, v, budget, 0);
    ExhaustedHasNone(vs, caps, v, budget);
    NoEntries();
  }

  lemma ExhaustedHasNone(vs: Values, caps: Caps, v: Ref, budget: int)
    requires budget <= 0 && caps.maxDepth >= 0
    ensures var c := Convert(vs, caps, v, budget, 0); c.Converted? ==> c.tree.entries == []
  {
    hide LeafKind, NativeElements;
  }

  /** What is met down to the depth limit can be read. */
  predicate ReadableDown(vs: Values, caps: Caps, v: Ref, level: nat)
    decreases LevelsLeft(caps, level), 0
  {
    level > caps.maxDepth || v !in vs ||
    if IsNativeContainer(vs[v]) then level < caps.maxDepth ==> AllReadableDown(vs, caps, NativeElements(vs[v]), level + 1)
    else LeafKind(vs[v], caps.maxString).Some?
  }

  predicate AllReadableDown(vs: Values, caps: Caps, es: seq<Element>, level: nat)
    decreases LevelsLeft(caps, level), 1 + |es|
  {
    es != [] ==> Readable(es[0]) && ReadableDown(vs, caps, es[0].value, level) && AllReadableDown(vs, caps, es[1..], level)
  }

  /** The only way to get no tree is to read what cannot be read: the guard on the depth is never what stops. */
  lemma {:induction false} ConvertSucceeds(vs: Values, caps: Caps, v: Ref, budget: int, level: nat)
    requires level <= caps.maxDepth
    ensures Convert(vs, caps, v, budget, level) != Stopped(TooDeep)
    ensures ReadableDown(vs, caps, v, level) ==> Convert(vs, caps, v, budget, level).Converted?
    decreases LevelsLeft(caps, level), 0
  {
    hide ConvertAll, NativeElements, NativeKind;
    ConvertBudget(vs, caps, v, budget, level);
    if v in vs && IsNativeContainer(vs[v]) && level < caps.maxDepth && ReadableDown(vs, caps, v, level) {
      ConvertAllSucceeds(vs, caps, NativeElements(vs[v]), budget - 1, level + 1);
    }
  }

  lemma {:induction false} ConvertAllSucceeds(vs: Values, caps: Caps, es: seq<Element>, budget: int, level: nat)
    requires level <= caps.maxDepth && AllReadableDown(vs, caps, es, level)
    ensures ConvertAll(vs, caps, es, budget, level).ConvertedAll?
    decreases LevelsLeft(caps, level), 1 + |es|
  {
    hide Convert, Named, ReadableDown;
    if es != [] && budget > 0 {
      ConvertSucceeds(vs, caps, es[0].value, budget, level);
      ConvertAllSucceeds(vs, caps, es[1..], Convert(vs, caps, es[0].value, budget, level).left, level);
    }
  }
}
