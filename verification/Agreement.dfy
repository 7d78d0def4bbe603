/** Serializing a value and converting it: for which values the two ways to the native library agree. */
module Agreement {
  import opened Common
  import opened Unicode
  import opened WafObjects
  import opened Truncation
  import opened JavaValues
  import opened Budget
  import opened Converter

  // ---------------------------------------------------------------- one object

  /** What `doSerialize` makes of one object that is within the limits. */
  lemma UnfoldedIs(g: Graph, v: Ref, depth: nat)
    requires v in g
    ensures var o, tree := g[v], Unfold(g, Child(None, v), depth);
      && tree.name == None
      && tree.kind == (if o.JString? then Str(Utf16ToUtf8(o.text)) else if HasChildren(o) then ContainerKind(o) else ScalarKind(o))
      && |tree.entries| == (if HasChildren(o) then |Children(o)| else 0)
  {
    hide UnfoldAll, Utf16ToUtf8, Children, ContainerKind, ScalarKind;
  }

  /** What `_convert_checked` makes of one object. */
  lemma ConvertedIs(vs: Values, caps: Caps, v: Ref, budget: int, level: nat)
    requires v in vs && level <= caps.maxDepth && Convert(vs, caps, v, budget, level).Converted?
    ensures var o, tree := vs[v], Convert(vs, caps, v, budget, level).tree;
      if IsNativeContainer(o) then
        && tree.kind == NativeKind(o)
        && (|tree.entries| == |NativeElements(o)| ==> AllReadable(NativeElements(o)))
      else LeafKind(o, caps.maxString) == Some(tree.kind)
  {
    hide ConvertAll, NativeElements, LeafKind, NativeKind, AllReadable;
    var o := vs[v];
    if IsNativeContainer(o) {
      if level < caps.maxDepth {
        ReadAll(vs, caps, NativeElements(o), budget - 1, level + 1);
      } else {
        NothingToRead(NativeElements(o));
      }
    }
  }

  predicate AllReadable(es: seq<Element>) {
    forall i :: 0 <= i < |es| ==> Readable(es[i])
  }

  lemma NothingToRead(es: seq<Element>)
    ensures |es| == 0 ==> AllReadable(es)
  {
  }

  /** A loop that gets to the end has read every element. */
  lemma {:induction false} ReadAll(vs: Values, caps: Caps, es: seq<Element>, budget: int, level: nat)
    ensures var r := ConvertAll(vs, caps, es, budget, level); r.ConvertedAll? && |r.trees| == |es| ==> AllReadable(es)
    decreases |es|
  {
    hide Convert, Named;
    if es != [] && budget > 0 && Readable(es[0]) {
      var c := Convert(vs, caps, es[0].value, budget, level);
      if c.Converted? {
        ReadAll(vs, caps, es[1..], c.left, level);
        assert es == [es[0]] + es[1..];
      }
    }
  }

  /** An object that is of several kinds, of none, or whose elements cannot be read: the two differ at that node. */
  lemma NotAlikeDiffers(vs: Values, caps: Caps, v: Ref, budget: int, level: nat, depth: nat)
    requires v in vs && level <= caps.maxDepth && !Alike(vs[v])
    requires vs[v].BufferValue? ==> |BufferText(vs[v].buffer)| <= caps.maxString
    ensures var c := Convert(vs, caps, v, budget, level);
      c.Converted? ==> c.tree != Unfold(Serialized(vs), Child(None, v), depth)
  {
    if Convert(vs, caps, v, budget, level).Converted? {
      UnfoldedIs(Serialized(vs), v, depth);
      ConvertedIs(vs, caps, v, budget, level);
      NotAlikeKinds(vs[v], caps.maxString);
      hide *;
    }
  }

  lemma NotAlikeKinds(o: JavaValue, max: int)
    requires !Alike(o)
    requires o.BufferValue? ==> |BufferText(o.buffer)| <= max
    ensures var b := Branch(o);
      if IsNativeContainer(o) then
        || b.JString? || !HasChildren(b) || ContainerKind(b) != NativeKind(o)
        || (|Children(b)| == |NativeElements(o)| && !AllReadable(NativeElements(o)))
      else if b.JString? then LeafKind(o, max).Some? && LeafKind(o, max) != Some(Str(Utf16ToUtf8(b.text)))
      else b.JOther? && LeafKind(o, max) == Some(Map)
  {
    if o.BufferValue? {
      SameEncodingIff(BufferText(o.buffer), TextFromStart(o.buffer));
    } else if o.PrimitiveArray? {
      assert !Readable(NativeElements(o)[0]);
    } else if o.elements.None? && o.pairs.Some? && o.chars.None? && o.number.None? {
      var i :| 0 <= i < |o.pairs.value| && !NativeKey(o.pairs.value[i]).Some?;
      assert !Readable(NativeElements(o)[i]);
    }
  }

  /** A buffer that starts where its array does is read alike; only a slice of an array can differ. */
  lemma WholeArrayAlike(b: ArrayBuffer)
    requires b.offset == 0
    ensures Alike(BufferValue(b))
  {
    hide Repair;
  }

  /** A buffer within the limits: `doSerialize` writes its characters, and `_convert_checked` those without the offset. */
  lemma {:induction false} BufferTrees(vs: Values, lim: Limits, v: Ref, b: ArrayBuffer)
    requires v in vs && vs[v] == BufferValue(b) && lim.maxDepth >= 0 && lim.maxElements >= 1
    requires |BufferText(b)| <= lim.maxStringSize && Storable(BufferText(b))
    ensures var s := Truncate(Serialized(vs), lim, v); s.Done? && s.tree == WafObject(None, Str(Utf16ToUtf8(BufferText(b))), [])
    ensures Convert(vs, Caps(lim.maxDepth, lim.maxStringSize), v, lim.maxElements, 0)
         == Converted(WafObject(None, Str(Utf16ToUtf8(TextFromStart(b))), []), lim.maxElements - 1)
  {
    hide Utf16ToUtf8, SerAll, Children, NameBytesOf, Truncate, ConvertAll, BufferText, TextFromStart;
    TruncateIs(Serialized(vs), lim, v);
    NothingUnfolds(vs);
  }

  /** The last four of the letters a to f, as a slice: "cdef" is serialized and "abcd" converted. */
  lemma SliceDiffers(b: ArrayBuffer)
    requires b == ArrayChars([0x61, 0x62, 0x63, 0x64, 0x65, 0x66], 2, 0, 4)
    ensures Utf16ToUtf8(BufferText(b)) == [0x63, 0x64, 0x65, 0x66]
    ensures Utf16ToUtf8(TextFromStart(b)) == [0x61, 0x62, 0x63, 0x64]
    ensures !Alike(BufferValue(b))
  {
    hide Utf16ToUtf8, Repair;
    Letters(BufferText(b), 0x63);
    Letters(TextFromStart(b), 0x61);
    SameEncodingIff(BufferText(b), TextFromStart(b));
    assert BufferText(b)[0] != TextFromStart(b)[0];
  }

  /** Four letters from the given one on are encoded one byte each. */
  lemma Letters(s: JavaString, a: unit16)
    requires a < 0x70 && s == [a, a + 1, a + 2, a + 3]
    ensures Utf16ToUtf8(s) == [a, a + 1, a + 2, a + 3]
  {
    hide Utf16ToUtf8;
    FirstLetter(s);
    FirstLetter(s[1..]);
    FirstLetter(s[2..]);
    FirstLetter(s[3..]);
    EmptyEncoding(s[4..]);
    assert s[1..][1..] == s[2..] && s[2..][1..] == s[3..] && s[3..][1..] == s[4..];
  }

  lemma FirstLetter(s: seq<unit16>)
    requires s != [] && s[0] < 0x80
    ensures Utf16ToUtf8(s) == [s[0]] + Utf16ToUtf8(s[1..])
  {
    hide Utf16ToUtf8;
    EncodeStep(s);
  }

  // ---------------------------------------------------------------- a whole value

  function ChildOf(e: Element): Child
    requires Readable(e)
  {
    if e.Item? then Child(None, e.value) else Child(e.key, e.value)
  }

  predicate Matches(es: seq<Element>, cs: seq<Child>) {
    |es| == |cs| && forall i :: 0 <= i < |es| ==> Readable(es[i]) && cs[i] == ChildOf(es[i])
  }

  /** An object that is of one kind is iterated alike. */
  lemma AlikeElements(o: JavaValue)
    requires Alike(o)
    ensures IsNativeContainer(o) <==> HasChildren(Branch(o))
    ensures IsNativeContainer(o) ==>
      NativeKind(o) == ContainerKind(Branch(o)) && Matches(NativeElements(o), Children(Branch(o)))
  {
  }

  lemma AlikeLeaf(o: JavaValue, max: int)
    requires Alike(o) && !IsNativeContainer(o) && (Branch(o).JString? ==> |Branch(o).text| <= max)
    ensures LeafKind(o, max) == Some(if Branch(o).JString? then Str(Utf16ToUtf8(Branch(o).text)) else ScalarKind(Branch(o)))
  {
    hide Utf16ToUtf8, Repair;
    if o.BufferValue? {
      SameEncodingIff(BufferText(o.buffer), TextFromStart(o.buffer));
    }
  }

  /** A name is put on a tree after the tree is made. */
  lemma NamedUnfold(g: Graph, max: int, e: Element, tree: WafObject, depth: int)
    requires Readable(e) && Within(g, max, ChildOf(e), depth) && tree.name == None
    ensures var plain := Child(None, e.value);
      && Within(g, max, plain, depth)
      && (Named(e, tree, max) == Unfold(g, ChildOf(e), depth) <==> tree == Unfold(g, plain, depth))
      && Size(Unfold(g, plain, depth)) == Size(Unfold(g, ChildOf(e), depth))
  {
    hide UnfoldAll, WithinAll, Children, SizeAll, Utf16ToUtf8;
  }

  lemma NoChildrenWithin(g: Graph, max: int, cs: seq<Child>, depth: int)
    requires WithinAll(g, max, cs, depth) && depth < 0
    ensures cs == []
  {
  }

  lemma ConvertedIsUnnamed(vs: Values, caps: Caps, v: Ref, budget: int, level: nat)
    ensures var c := Convert(vs, caps, v, budget, level); c.Converted? ==> c.tree.name == None
  {
    hide ConvertAll, NativeElements, LeafKind, NativeKind;
  }

  lemma ConvertEntered(vs: Values, caps: Caps, v: Ref, budget: int, level: nat)
    requires v in vs && IsNativeContainer(vs[v]) && level < caps.maxDepth
    ensures var c := Convert(vs, caps, v, budget, level);
      var all := ConvertAll(vs, caps, NativeElements(vs[v]), budget - 1, level + 1);
      && (c.Converted? <==> all.ConvertedAll?)
      && (c.Converted? ==> c.tree == WafObject(None, NativeKind(vs[v]), all.trees) && c.left == all.left)
  {
    hide ConvertAll, NativeElements, NativeKind;
  }

  lemma ConvertStays(vs: Values, caps: Caps, v: Ref, budget: int, level: nat)
    requires v in vs && IsNativeContainer(vs[v]) && level == caps.maxDepth
    ensures Convert(vs, caps, v, budget, level) == Converted(WafObject(None, NativeKind(vs[v]), []), budget - 1)
  {
    hide ConvertAll, NativeElements, NativeKind;
  }

  lemma AlikeDownIs(vs: Values, v: Ref, depth: nat)
    requires v in vs && Alike(vs[v])
    ensures var o := Branch(vs[v]);
      AlikeDown(vs, Child(None, v), depth) <==> (HasChildren(o) ==> AllAlikeDown(vs, Children(o), depth - 1))
  {
    hide AllAlikeDown, Alike, Children;
  }

  lemma NotAlikeDown(vs: Values, v: Ref, depth: nat)
    requires v in vs && !Alike(vs[v])
    ensures !AlikeDown(vs, Child(None, v), depth)
  {
    hide AllAlikeDown, Alike, Children;
  }

  /**
    Within the limits on depth, elements and strings: the value is converted to the very tree that `doSerialize` writes
    for it if and only if every object in it is of one known kind and can be read.
    */
  lemma {:induction false} ConvertLosslessIff(vs: Values, caps: Caps, v: Ref, budget: int, level: nat)
    requires level <= caps.maxDepth
    requires Within(Serialized(vs), caps.maxString, Child(None, v), caps.maxDepth - level)
    requires Size(Unfold(Serialized(vs), Child(None, v), caps.maxDepth - level)) <= budget
    ensures var tree := Unfold(Serialized(vs), Child(None, v), caps.maxDepth - level);
      var c := Convert(vs, caps, v, budget, level);
      (c.Converted? && c.tree == tree) <==> AlikeDown(vs, Child(None, v), caps.maxDepth - level)
    decreases LevelsLeft(caps, level), 0
  {
    hide *;
    var g, depth := Serialized(vs), caps.maxDepth - level;
    if v !in vs {
      NullAgrees(vs, caps, v, budget, level);
    } else if !Alike(vs[v]) {
      BufferWithin(vs, caps.maxString, v, depth);
      NotAlikeDiffers(vs, caps, v, budget, level, depth);
      NotAlikeDown(vs, v, depth);
    } else {
      AlikeElements(vs[v]);
      AlikeDownIs(vs, v, depth);
      if !IsNativeContainer(vs[v]) {
        LeafAgrees(vs, caps, v, budget, level);
      } else {
        UnfoldEntered(g, Limits(0, 0, caps.maxString), Child(None, v), depth);
        NothingUnfolds(vs);
        if level == caps.maxDepth {
          NothingLevel(vs, caps, v, budget, level);
        } else {
          ConvertEntered(vs, caps, v, budget, level);
          OneLevelLess(caps, level);
          ConvertAllLosslessIff(vs, caps, NativeElements(vs[v]), Children(g[v]), budget - 1, level + 1);
        }
      }
    }
  }

  lemma OneLevelLess(caps: Caps, level: nat)
    requires level < caps.maxDepth
    ensures LevelsLeft(caps, level + 1) < LevelsLeft(caps, level)
  {
  }

  /** An object that is not `Alike` is within the limits, so a buffer is not cut. */
  lemma BufferWithin(vs: Values, max: int, v: Ref, depth: int)
    requires v in vs && Within(Serialized(vs), max, Child(None, v), depth)
    ensures vs[v].BufferValue? ==> |BufferText(vs[v].buffer)| <= max
  {
    hide WithinAll, Children;
  }

  lemma NullAgrees(vs: Values, caps: Caps, v: Ref, budget: int, level: nat)
    requires v !in vs && level <= caps.maxDepth
    ensures Convert(vs, caps, v, budget, level).Converted?
    ensures Convert(vs, caps, v, budget, level).tree == Unfold(Serialized(vs), Child(None, v), caps.maxDepth - level)
    ensures AlikeDown(vs, Child(None, v), caps.maxDepth - level)
  {
  }

  lemma LeafAgrees(vs: Values, caps: Caps, v: Ref, budget: int, level: nat)
    requires v in vs && Alike(vs[v]) && !IsNativeContainer(vs[v]) && !HasChildren(Branch(vs[v])) && level <= caps.maxDepth
    requires Within(Serialized(vs), caps.maxString, Child(None, v), caps.maxDepth - level)
    ensures Convert(vs, caps, v, budget, level).Converted?
    ensures Convert(vs, caps, v, budget, level).tree == Unfold(Serialized(vs), Child(None, v), caps.maxDepth - level)
  {
    AlikeLeaf(vs[v], caps.maxString);
    hide Alike, LeafKind, ScalarKind, Utf16ToUtf8, ConvertAll, UnfoldAll;
  }

  lemma NothingLevel(vs: Values, caps: Caps, v: Ref, budget: int, level: nat)
    requires v in vs && IsNativeContainer(vs[v]) && level == caps.maxDepth && Alike(vs[v])
    requires Within(Serialized(vs), caps.maxString, Child(None, v), 0)
    ensures Convert(vs, caps, v, budget, level).Converted?
    ensures Convert(vs, caps, v, budget, level).tree == Unfold(Serialized(vs), Child(None, v), 0)
    ensures AllAlikeDown(vs, Children(Branch(vs[v])), -1)
  {
    var g := Serialized(vs);
    hide *;
    AlikeElements(vs[v]);
    ConvertStays(vs, caps, v, budget, level);
    UnfoldEntered(g, Limits(0, 0, caps.maxString), Child(None, v), 0);
    NoChildrenWithin(g, caps.maxString, Children(g[v]), -1);
    NothingUnfolds(vs);
  }

  lemma NothingUnfolds(vs: Values)
    ensures UnfoldAll(Serialized(vs), [], -1) == [] && AllAlikeDown(vs, [], -1)
    ensures NameBytesOf(None) == None
  {
  }

  lemma {:induction false} ConvertAllLosslessIff(vs: Values, caps: Caps, es: seq<Element>, cs: seq<Child>, budget: int, level: nat)
    requires level <= caps.maxDepth && Matches(es, cs)
    requires WithinAll(Serialized(vs), caps.maxString, cs, caps.maxDepth - level)
    requires SizeAll(UnfoldAll(Serialized(vs), cs, caps.maxDepth - level)) <= budget
    ensures var trees := UnfoldAll(Serialized(vs), cs, caps.maxDepth - level);
      var c := ConvertAll(vs, caps, es, budget, level);
      (c.ConvertedAll? && c.trees == trees) <==> AllAlikeDown(vs, cs, caps.maxDepth - level)
    decreases LevelsLeft(caps, level), 1 + |es|
  {
    hide *;
    var g, depth := Serialized(vs), caps.maxDepth - level;
    if es == [] {
      NothingAgrees(vs, caps, es, cs, budget, level, depth);
      return;
    }
    MatchesFirst(es, cs);
    UnfoldAllStep(g, Limits(0, 0, caps.maxString), cs, depth);
    AllAlikeStep(vs, cs, depth);
    ConvertAllStep(vs, caps, es, budget, level);
    ConvertedIsUnnamed(vs, caps, es[0].value, budget, level);
    ConvertBudget(vs, caps, es[0].value, budget, level);
    var c := Convert(vs, caps, es[0].value, budget, level);
    NamedUnfold(g, caps.maxString, es[0], if c.Converted? then c.tree else WafObject(None, Null, []), depth);
    ConvertLosslessIff(vs, caps, es[0].value, budget, level);
    AlikeDownNamed(vs, cs[0], depth);
    if c.Converted? {
      var rest := ConvertAll(vs, caps, es[1..], c.left, level);
      SameStep(Named(es[0], c.tree, caps.maxString), if rest.ConvertedAll? then rest.trees else [],
               Unfold(g, cs[0], depth), UnfoldAll(g, cs[1..], depth));
      if c.tree == Unfold(g, Child(None, es[0].value), depth) {
        ConvertAllLosslessIff(vs, caps, es[1..], cs[1..], c.left, level);
      }
    }
  }

  lemma NothingAgrees(vs: Values, caps: Caps, es: seq<Element>, cs: seq<Child>, budget: int, level: nat, depth: int)
    requires es == [] && Matches(es, cs)
    ensures ConvertAll(vs, caps, es, budget, level) == ConvertedAll([], budget)
    ensures UnfoldAll(Serialized(vs), cs, depth) == [] && AllAlikeDown(vs, cs, depth)
  {
  }

  lemma MatchesFirst(es: seq<Element>, cs: seq<Child>)
    requires Matches(es, cs) && es != []
    ensures cs != [] && Readable(es[0]) && cs[0] == ChildOf(es[0]) && cs[0].value == es[0].value && Matches(es[1..], cs[1..])
  {
  }

  lemma AllAlikeStep(vs: Values, cs: seq<Child>, depth: int)
    requires cs != []
    ensures AllAlikeDown(vs, cs, depth) <==> AlikeDown(vs, cs[0], depth) && AllAlikeDown(vs, cs[1..], depth)
  {
    hide AlikeDown;
  }

  lemma AlikeDownNamed(vs: Values, c: Child, depth: int)
    ensures AlikeDown(vs, c, depth) <==> AlikeDown(vs, Child(None, c.value), depth)
  {
    hide AllAlikeDown, Alike, Children;
  }

  lemma ConvertAllStep(vs: Values, caps: Caps, es: seq<Element>, budget: int, level: nat)
    requires es != [] && Readable(es[0]) && budget > 0
    ensures var first := Convert(vs, caps, es[0].value, budget, level); var all := ConvertAll(vs, caps, es, budget, level);
      && (!first.Converted? ==> !all.ConvertedAll?)
      && (first.Converted? ==>
            var rest := ConvertAll(vs, caps, es[1..], first.left, level);
            && (all.ConvertedAll? <==> rest.ConvertedAll?)
            && (all.ConvertedAll? ==> all.trees == [Named(es[0], first.tree, caps.maxString)] + rest.trees))
  {
    hide Convert, Named;
  }

  lemma SameStep(x: WafObject, a: seq<WafObject>, y: WafObject, b: seq<WafObject>)
    ensures [x] + a == [y] + b <==> x == y && a == b
  {
    assert ([x] + a)[1..] == a && ([y] + b)[1..] == b && ([x] + a)[0] == x && ([y] + b)[0] == y;
  }

  /**
    Under limits that cut neither, serializing and converting give the same tree, and leave the same budget, if and only
    if every object in the value is of one known kind and can be read.
    */
  lemma ConvertersAgreeIff(vs: Values, lim: Limits, v: Ref)
    requires lim.maxDepth >= 0
    requires Within(Serialized(vs), lim.maxStringSize, Child(None, v), lim.maxDepth)
    requires Size(Unfold(Serialized(vs), Child(None, v), lim.maxDepth)) <= lim.maxElements
    ensures var c := Convert(vs, Caps(lim.maxDepth, lim.maxStringSize), v, lim.maxElements, 0);
      var s := Truncate(Serialized(vs), lim, v);
      && s.Done?
      && ((c.Converted? && c.tree == s.tree) <==> AlikeDown(vs, Child(None, v), lim.maxDepth))
      && (c.Converted? && c.tree == s.tree ==> c.left == s.left)
  {
    hide *;
    var g, caps := Serialized(vs), Caps(lim.maxDepth, lim.maxStringSize);
    TruncateIs(g, lim, v);
    SerLossless(g, lim, Child(None, v), lim.maxElements, lim.maxDepth);
    ConvertLosslessIff(vs, caps, v, lim.maxElements, 0);
    ConvertBudget(vs, caps, v, lim.maxElements, 0);
  }
}
