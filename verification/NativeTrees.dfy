/**
  What a tree made by `_convert_checked` shows of a Java value, said of the tree alone: the order of the class tests,
  which prefix of each string and key, and how far the loops go.
  */
module NativeTrees {
  import opened Common
  import opened Unicode
  import opened WafObjects
  import opened Truncation
  import opened JavaValues
  import opened Converter
  import opened Agreement

  // ---------------------------------------------------------------- the relation

  /** The UTF-8 form of the first max code units of s, of all of them if max is negative. */
  ghost predicate IsPrefixOf(bytes: seq<byte>, s: JavaString, max: int) {
    exists t :: t <= s && |t| == (if max < 0 then |s| else Min(|s|, max)) && bytes == Utf16ToUtf8(t)
  }

  ghost predicate IsString(o: WafObject, s: JavaString, max: int) {
    o.kind.Str? && IsPrefixOf(o.kind.text, s, max) && o.entries == []
  }

  /**
    o, whatever its name, is what a call on v with the given budget and level makes. Arrays come before maps, maps
    before iterables, those before character sequences, numbers and anything else; a container at the last level is
    left empty. A character sequence has no prefix of negative length.
    */
  ghost predicate Becomes(vs: Values, caps: Caps, v: Ref, budget: int, level: nat, o: WafObject)
    decreases o, 1
  {
    && level <= caps.maxDepth
    && if v !in vs then o.kind == Null && o.entries == []
       else
         match vs[v]
         case StringValue(s) => IsString(o, s, caps.maxString)
         case BufferValue(b) => caps.maxString >= 0 && IsString(o, b.backing[b.position..b.limit], caps.maxString)
         case BooleanValue(b) => o.kind == Bool(b) && o.entries == []
         case ObjectArray(items) =>
           o.kind == Array && (if level == caps.maxDepth then o.entries == []
                               else BecomeItems(vs, caps, items, budget - 1, level + 1, o.entries))
         case PrimitiveArray(items) =>
           o.kind == Array && o.entries == [] && (level == caps.maxDepth || budget <= 1 || items == [])
         case Instance(chars, number, elements, _, pairs) =>
           if pairs.Some? then
             o.kind == Map && (if level == caps.maxDepth then o.entries == []
                               else BecomePairs(vs, caps, pairs.value, budget - 1, level + 1, o.entries))
           else if elements.Some? then
             o.kind == Array && (if level == caps.maxDepth then o.entries == []
                                 else BecomeItems(vs, caps, elements.value, budget - 1, level + 1, o.entries))
           else if chars.Some? then caps.maxString >= 0 && IsString(o, chars.value, caps.maxString)
           else
             && o.entries == []
             && o.kind == (match number case Some(Floating(bits)) => Float(bits) case Some(Integral(n)) => Signed(n) case None => Map)
  }

  /** The elements up to the one before which the budget is used up; each takes as many nodes as it becomes. */
  ghost predicate BecomeItems(vs: Values, caps: Caps, items: seq<Ref>, budget: int, level: nat, os: seq<WafObject>)
    decreases os, 0
  {
    if items == [] || budget <= 0 then os == []
    else
      && os != [] && os[0].name == None && Becomes(vs, caps, items[0], budget, level, os[0])
      && BecomeItems(vs, caps, items[1..], budget - Size(os[0]), level, os[1..])
  }

  /** The entries of a map likewise, each under the prefix of the text of its key, which there must be. */
  ghost predicate BecomePairs(vs: Values, caps: Caps, pairs: seq<JavaEntry>, budget: int, level: nat, os: seq<WafObject>)
    decreases os, 0
  {
    if pairs == [] || budget <= 0 then os == []
    else
      && os != [] && os[0].name.Some? && pairs[0].key.Key? && pairs[0].key.text.Some?
      && IsPrefixOf(os[0].name.value, pairs[0].key.text.value, caps.maxString)
      && Becomes(vs, caps, pairs[0].value, budget, level, os[0])
      && BecomePairs(vs, caps, pairs[1..], budget - Size(os[0]), level, os[1..])
  }

  // ---------------------------------------------------------------- strings

  lemma PrefixIff(bytes: seq<byte>, s: JavaString, max: int)
    ensures IsPrefixOf(bytes, s, max) <==> bytes == Limited(s, max)
  {
    hide Utf16ToUtf8;
    var t := if max < 0 || |s| <= max then s else s[..max];
    assert t <= s && |t| == (if max < 0 then |s| else Min(|s|, max));
    assert forall u :: u <= s && |u| == |t| ==> u == s[..|t|] == t;
  }

  lemma StringIff(o: WafObject, s: JavaString, max: int)
    ensures IsString(o, s, max) <==> o.kind == Str(Limited(s, max)) && o.entries == []
  {
    hide IsPrefixOf, Limited;
    if o.kind.Str? {
      PrefixIff(o.kind.text, s, max);
    }
  }

  // ---------------------------------------------------------------- it is the outcome

  lemma LeafIff(vs: Values, caps: Caps, v: Ref, budget: int, level: nat, o: WafObject)
    requires v in vs ==> !IsNativeContainer(vs[v])
    ensures Becomes(vs, caps, v, budget, level, o) && o.name == None <==>
      Convert(vs, caps, v, budget, level) == Converted(o, budget - Size(o))
  {
    hide ConvertAll, IsString, Limited, BecomeItems, BecomePairs, Utf16ToUtf8, SizeAll;
    NoneInside(o);
    if v in vs {
      match vs[v]
      case StringValue(s) => StringIff(o, s, caps.maxString);
      case BufferValue(b) => StringIff(o, TextFromStart(b), caps.maxString);
      case Instance(chars, _, _, _, _) =>
        if chars.Some? {
          StringIff(o, chars.value, caps.maxString);
        }
      case _ =>
    }
  }

  lemma NoneInside(o: WafObject)
    ensures o.entries == [] ==> Size(o) == 1
  {
  }

  lemma Unnamed(vs: Values, caps: Caps, v: Ref, budget: int, level: nat, o: WafObject)
    ensures Becomes(vs, caps, v, budget, level, o) <==> Becomes(vs, caps, v, budget, level, o.(name := None))
    ensures Size(o.(name := None)) == Size(o)
  {
    hide BecomeItems, BecomePairs, IsPrefixOf, SizeAll;
  }

  /** A container that is entered, or is left empty at the last level. */
  lemma ContainerIs(vs: Values, caps: Caps, v: Ref, budget: int, level: nat, o: WafObject)
    requires v in vs && IsNativeContainer(vs[v]) && !vs[v].PrimitiveArray?
    ensures Becomes(vs, caps, v, budget, level, o) <==>
      && level <= caps.maxDepth && o.kind == NativeKind(vs[v])
      && (if level == caps.maxDepth then o.entries == []
          else if NativeKind(vs[v]) == Map then BecomePairs(vs, caps, vs[v].pairs.value, budget - 1, level + 1, o.entries)
          else BecomeItems(vs, caps, ItemsOf(vs[v]), budget - 1, level + 1, o.entries))
  {
    hide BecomeItems, BecomePairs;
  }

  function ItemsOf(o: JavaValue): seq<Ref>
    requires IsNativeContainer(o) && !o.PrimitiveArray? && NativeKind(o) != Map
  {
    if o.ObjectArray? then o.items else o.elements.value
  }

  lemma ElementsOf(o: JavaValue)
    requires IsNativeContainer(o) && !o.PrimitiveArray?
    ensures NativeKind(o) == Map ==> o.Instance? && o.pairs.Some? && NativeElements(o) == Entries(o.pairs.value)
    ensures NativeKind(o) != Map ==> NativeElements(o) == Items(ItemsOf(o))
  {
  }

  lemma PrimitiveIff(vs: Values, caps: Caps, v: Ref, budget: int, level: nat, o: WafObject)
    requires v in vs && vs[v].PrimitiveArray?
    ensures Becomes(vs, caps, v, budget, level, o) && o.name == None <==>
      Convert(vs, caps, v, budget, level) == Converted(o, budget - Size(o))
  {
    hide SizeAll;
    NoneInside(o);
  }

  lemma NothingAsked(vs: Values, caps: Caps, es: seq<Element>, budget: int, level: nat)
    requires es == [] || budget <= 0
    ensures ConvertAll(vs, caps, es, budget, level) == ConvertedAll([], budget)
  {
  }

  lemma SizesAre(o: WafObject, os: seq<WafObject>)
    ensures SizeAll([]) == 0 && (os != [] ==> SizeAll(os) == Size(os[0]) + SizeAll(os[1..]))
    ensures Size(o) == if IsContainer(o.kind) then 1 + SizeAll(o.entries) else 1
  {
  }

  /** A call ends with the tree o, and with what is left of its budget, if and only if o is what the value becomes. */
  lemma {:induction false} ConvertIff(vs: Values, caps: Caps, v: Ref, budget: int, level: nat, o: WafObject)
    ensures Becomes(vs, caps, v, budget, level, o) && o.name == None <==>
      Convert(vs, caps, v, budget, level) == Converted(o, budget - Size(o))
    decreases LevelsLeft(caps, level), 0
  {
    hide *;
    if v !in vs || !IsNativeContainer(vs[v]) {
      LeafIff(vs, caps, v, budget, level, o);
    } else if vs[v].PrimitiveArray? {
      PrimitiveIff(vs, caps, v, budget, level, o);
    } else if level >= caps.maxDepth {
      EmptyIff(vs, caps, v, budget, level, o);
    } else {
      ContainerIs(vs, caps, v, budget, level, o);
      ElementsOf(vs[v]);
      ConvertEntered(vs, caps, v, budget, level);
      ConvertedIsUnnamed(vs, caps, v, budget, level);
      OneLevelLess(caps, level);
      SizesAre(o, o.entries);
      KindInside(vs[v]);
      if NativeKind(vs[v]) == Map {
        PairsIff(vs, caps, vs[v].pairs.value, budget - 1, level + 1, o.entries);
      } else {
        ItemsIff(vs, caps, ItemsOf(vs[v]), budget - 1, level + 1, o.entries);
      }
    }
  }

  lemma KindInside(o: JavaValue)
    requires IsNativeContainer(o)
    ensures IsContainer(NativeKind(o))
  {
  }

  lemma EmptyIff(vs: Values, caps: Caps, v: Ref, budget: int, level: nat, o: WafObject)
    requires v in vs && IsNativeContainer(vs[v]) && !vs[v].PrimitiveArray? && level >= caps.maxDepth
    ensures Becomes(vs, caps, v, budget, level, o) && o.name == None <==>
      Convert(vs, caps, v, budget, level) == Converted(o, budget - Size(o))
  {
    hide ConvertAll, NativeElements, BecomeItems, BecomePairs, SizeAll;
    NoneInside(o);
    ContainerIs(vs, caps, v, budget, level, o);
  }

  /** One more element. */
  lemma StepIs(vs: Values, caps: Caps, es: seq<Element>, budget: int, level: nat, os: seq<WafObject>)
    requires es != [] && Readable(es[0]) && budget > 0 && level <= caps.maxDepth
    ensures var first := Convert(vs, caps, es[0].value, budget, level);
      ConvertAll(vs, caps, es, budget, level) == ConvertedAll(os, budget - SizeAll(os)) <==>
      && os != [] && first.Converted? && os[0] == Named(es[0], first.tree, caps.maxString)
      && first.left == budget - Size(os[0])
      && ConvertAll(vs, caps, es[1..], first.left, level) == ConvertedAll(os[1..], first.left - SizeAll(os[1..]))
  {
    hide Convert, ConvertAll, Named, Size, SizeAll, Height;
    ConvertAllStep(vs, caps, es, budget, level);
    ConvertBudget(vs, caps, es[0].value, budget, level);
    var first := Convert(vs, caps, es[0].value, budget, level);
    if first.Converted? {
      NamedShape(es[0], first.tree, caps.maxString);
      var x, rest := Named(es[0], first.tree, caps.maxString), ConvertAll(vs, caps, es[1..], first.left, level);
      if rest.ConvertedAll? {
        LeftOver(vs, caps, es, budget, level);
        FrontIs(x, rest.trees, os);
      }
      SizesAre(x, os);
    }
  }

  lemma FrontIs(x: WafObject, a: seq<WafObject>, os: seq<WafObject>)
    ensures [x] + a == os <==> os != [] && x == os[0] && a == os[1..]
  {
    if os != [] {
      assert ([x] + a)[1..] == a && os == [os[0]] + os[1..];
    }
  }

  /** What is left of the budget is determined by the first element and the rest. */
  lemma LeftOver(vs: Values, caps: Caps, es: seq<Element>, budget: int, level: nat)
    requires es != [] && Readable(es[0]) && budget > 0 && Convert(vs, caps, es[0].value, budget, level).Converted?
    ensures var first := Convert(vs, caps, es[0].value, budget, level);
      var rest := ConvertAll(vs, caps, es[1..], first.left, level); var all := ConvertAll(vs, caps, es, budget, level);
      rest.ConvertedAll? ==> all.ConvertedAll? && all.left == rest.left
  {
    hide Convert, Named;
  }

  lemma {:induction false} ItemsIff(vs: Values, caps: Caps, items: seq<Ref>, budget: int, level: nat, os: seq<WafObject>)
    requires level <= caps.maxDepth
    ensures BecomeItems(vs, caps, items, budget, level, os) <==>
      ConvertAll(vs, caps, Items(items), budget, level) == ConvertedAll(os, budget - SizeAll(os))
    decreases LevelsLeft(caps, level), 1 + |items|
  {
    hide *;
    var es := Items(items);
    ItemsStep(vs, caps, items, budget, level, os);
    SizesAre(WafObject(None, Null, []), os);
    if items == [] || budget <= 0 {
      NothingAsked(vs, caps, es, budget, level);
    } else {
      StepIs(vs, caps, es, budget, level, os);
      if os != [] {
        ConvertIff(vs, caps, items[0], budget, level, os[0]);
        ConvertedIsUnnamed(vs, caps, items[0], budget, level);
        ItemsIff(vs, caps, items[1..], budget - Size(os[0]), level, os[1..]);
      }
    }
  }

  lemma ItemsStep(vs: Values, caps: Caps, items: seq<Ref>, budget: int, level: nat, os: seq<WafObject>)
    ensures items == [] || budget <= 0 ==> (BecomeItems(vs, caps, items, budget, level, os) <==> os == [])
    ensures items != [] && budget > 0 ==>
      (BecomeItems(vs, caps, items, budget, level, os) <==>
         os != [] && os[0].name == None && Becomes(vs, caps, items[0], budget, level, os[0])
         && BecomeItems(vs, caps, items[1..], budget - Size(os[0]), level, os[1..]))
    ensures items == [] ==> Items(items) == []
    ensures items != [] ==>
      var es := Items(items);
      && es != [] && es[0] == Item(items[0]) && es[0].value == items[0] && Readable(es[0]) && es[1..] == Items(items[1..])
      && forall tree :: Named(es[0], tree, caps.maxString) == tree
  {
    hide Becomes, Size;
  }

  lemma {:induction false} PairsIff(vs: Values, caps: Caps, pairs: seq<JavaEntry>, budget: int, level: nat, os: seq<WafObject>)
    requires level <= caps.maxDepth
    ensures BecomePairs(vs, caps, pairs, budget, level, os) <==>
      ConvertAll(vs, caps, Entries(pairs), budget, level) == ConvertedAll(os, budget - SizeAll(os))
    decreases LevelsLeft(caps, level), 1 + |pairs|
  {
    hide *;
    var es := Entries(pairs);
    PairsStep(vs, caps, pairs, budget, level, os);
    SizesAre(WafObject(None, Null, []), os);
    if pairs == [] || budget <= 0 {
      NothingAsked(vs, caps, es, budget, level);
    } else if !Readable(es[0]) {
      Unreadable(vs, caps, es, budget, level);
    } else {
      StepIs(vs, caps, es, budget, level, os);
      if os != [] {
        var o := os[0].(name := None);
        Unnamed(vs, caps, pairs[0].value, budget, level, os[0]);
        ConvertIff(vs, caps, pairs[0].value, budget, level, o);
        ConvertedIsUnnamed(vs, caps, pairs[0].value, budget, level);
        PairsIff(vs, caps, pairs[1..], budget - Size(os[0]), level, os[1..]);
        if os[0].name.Some? {
          PrefixIff(os[0].name.value, pairs[0].key.text.value, caps.maxString);
        }
      }
    }
  }

  lemma Unreadable(vs: Values, caps: Caps, es: seq<Element>, budget: int, level: nat)
    requires es != [] && budget > 0 && !Readable(es[0])
    ensures ConvertAll(vs, caps, es, budget, level) == StoppedAll(Undefined)
  {
  }

  lemma PairsStep(vs: Values, caps: Caps, pairs: seq<JavaEntry>, budget: int, level: nat, os: seq<WafObject>)
    ensures pairs == [] || budget <= 0 ==> (BecomePairs(vs, caps, pairs, budget, level, os) <==> os == [])
    ensures pairs != [] && budget > 0 ==>
      (BecomePairs(vs, caps, pairs, budget, level, os) <==>
         && os != [] && os[0].name.Some? && pairs[0].key.Key? && pairs[0].key.text.Some?
         && IsPrefixOf(os[0].name.value, pairs[0].key.text.value, caps.maxString)
         && Becomes(vs, caps, pairs[0].value, budget, level, os[0])
         && BecomePairs(vs, caps, pairs[1..], budget - Size(os[0]), level, os[1..]))
    ensures pairs == [] ==> Entries(pairs) == []
    ensures pairs != [] ==>
      var es := Entries(pairs);
      && es != [] && es[0].Entry? && es[0].value == pairs[0].value && es[1..] == Entries(pairs[1..])
      && (Readable(es[0]) <==> pairs[0].key.Key? && pairs[0].key.text.Some?)
      && (Readable(es[0]) ==>
            forall tree :: Named(es[0], tree, caps.maxString) == tree.(name := Some(Limited(pairs[0].key.text.value, caps.maxString))))
  {
    hide Becomes, Size, IsPrefixOf, Limited;
  }
}
