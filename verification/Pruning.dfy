/**
  What a serialized tree shows of a Java value, said of the tree alone: which prefix of each string and name, which
  elements, and what stands where the limits cut. It determines the outcome of `doSerialize`.
  */
module Pruning {
  import opened Common
  import opened Unicode
  import opened WafObjects
  import opened Truncation
  import opened Budget

  // ---------------------------------------------------------------- the relation

  /** The bytes are the UTF-8 form of the first max code units of s, for which three bytes each and a NUL are an int. */
  ghost predicate IsCut(bytes: seq<byte>, s: JavaString, max: int) {
    exists t :: t <= s && |t| == Min(|s|, max) && 3 * |t| + 1 <= 0x7FFF_FFFF && bytes == Utf16ToUtf8(t)
  }

  ghost predicate ShowsName(o: WafObject, name: Option<JavaString>, max: int) {
    match name
    case None => o.name == None
    case Some(s) => o.name.Some? && IsCut(o.name.value, s, max)
  }

  /** The elements of a list, which have no name. */
  function ListCalls(items: seq<Ref>): seq<Child> {
    if items == [] then [] else [Child(None, items[0])] + ListCalls(items[1..])
  }

  /** The entries of a map, each with the text of its key as its name, "" for a null key. */
  function MapCalls(pairs: seq<JavaEntry>): seq<Child> {
    if pairs == [] then []
    else
      var name := match pairs[0].key case NullKey => Some([]) case Key(text) => text;
      [Child(name, pairs[0].value)] + MapCalls(pairs[1..])
  }

  /**
    o is what a call with the budget rem and the given depth shows of c: the name; an empty map beyond the budget or the
    depth; otherwise the value, of whose elements as many as there is budget for.
    */
  ghost predicate Shows(g: Graph, max: int, c: Child, rem: int, depth: int, o: WafObject)
    decreases o, 1
  {
    && ShowsName(o, c.name, max)
    && if rem <= 0 || depth < 0 then o.kind == Map && o.entries == []
       else if c.value !in g then o.kind == Null && o.entries == []
       else
         match g[c.value]
         case JString(s) => o.kind.Str? && IsCut(o.kind.text, s, max) && o.entries == []
         case JDouble(bits) => o.kind == Float(bits) && o.entries == []
         case JLong(v) => o.kind == Signed(v) && o.entries == []
         case JBoolean(b) => o.kind == Bool(b) && o.entries == []
         case JOther => o.kind == Null && o.entries == []
         case JCollection(items) => o.kind == Array && ShowsFirst(g, max, ListCalls(items), rem - 1, depth - 1, o.entries)
         case JArray(items) => o.kind == Array && ShowsFirst(g, max, ListCalls(items), rem - 1, depth - 1, o.entries)
         case JIterable(items) => o.kind == Array && ShowsFirst(g, max, ListCalls(items), rem - 1, depth - 1, o.entries)
         case JMap(pairs) => o.kind == Map && ShowsFirst(g, max, MapCalls(pairs), rem - 1, depth - 1, o.entries)
  }

  /** As many of the calls as there is budget for, in their order. */
  ghost predicate ShowsFirst(g: Graph, max: int, cs: seq<Child>, rem: nat, depth: int, os: seq<WafObject>)
    decreases os, 1
  {
    |os| == Min(|cs|, rem) && ShowsAll(g, max, cs[..|os|], rem, depth, os)
  }

  /** Each call takes as many nodes from the budget as it writes. */
  ghost predicate ShowsAll(g: Graph, max: int, cs: seq<Child>, rem: int, depth: int, os: seq<WafObject>)
    decreases os, 0
  {
    && |os| == |cs|
    && (os != [] ==>
          Shows(g, max, cs[0], rem, depth, os[0]) && ShowsAll(g, max, cs[1..], rem - Size(os[0]), depth, os[1..]))
  }

  // ---------------------------------------------------------------- a cut string

  lemma CutIff(bytes: seq<byte>, s: JavaString, max: int)
    ensures IsCut(bytes, s, max) <==> Cut(s, max).Some? && Storable(Cut(s, max).value) && bytes == Utf16ToUtf8(Cut(s, max).value)
  {
    hide Utf16ToUtf8;
    if Cut(s, max).Some? {
      var t := Cut(s, max).value;
      assert t <= s && |t| == Min(|s|, max);
      assert forall u :: u <= s && |u| == |t| ==> u == s[..|t|] == t;
    }
  }

  lemma NameIff(o: WafObject, name: Option<JavaString>, max: int)
    ensures ShowsName(o, name, max) <==>
      CutName(name, max).Some? && NameStorable(CutName(name, max).value) && o.name == NameBytesOf(CutName(name, max).value)
  {
    hide Utf16ToUtf8, IsCut, Cut, Storable;
    if name.Some? && o.name.Some? {
      CutIff(o.name.value, name.value, max);
    }
  }

  lemma {:induction false} ListCallsAre(items: seq<Ref>)
    ensures |ListCalls(items)| == |items| && forall i :: 0 <= i < |items| ==> ListCalls(items)[i] == Child(None, items[i])
  {
    if items != [] {
      ListCallsAre(items[1..]);
    }
  }

  lemma {:induction false} MapCallsAre(pairs: seq<JavaEntry>)
    ensures |MapCalls(pairs)| == |pairs|
    ensures forall i :: 0 <= i < |pairs| ==> MapCalls(pairs)[i] == Child(KeyOf(pairs[i]), pairs[i].value)
  {
    if pairs != [] {
      MapCallsAre(pairs[1..]);
    }
  }

  lemma CallsAreChildren(o: JavaObject)
    requires HasChildren(o)
    ensures (if o.JMap? then MapCalls(o.pairs) else ListCalls(o.items)) == Children(o)
  {
    hide ListCalls, MapCalls, KeyOf;
    if o.JMap? {
      MapCallsAre(o.pairs);
    } else {
      ListCallsAre(o.items);
    }
  }

  /** The value of an entered container. */
  lemma ShowsEntered(g: Graph, max: int, c: Child, rem: int, depth: int, o: WafObject)
    requires Enters(g, c, rem, depth)
    ensures Shows(g, max, c, rem, depth, o) <==>
      && ShowsName(o, c.name, max) && o.kind == ContainerKind(g[c.value])
      && |o.entries| == |Admitted(g[c.value], rem - 1)|
      && ShowsAll(g, max, Admitted(g[c.value], rem - 1), rem - 1, depth - 1, o.entries)
  {
    hide ShowsAll, ShowsName, ListCalls, MapCalls, Children;
    CallsAreChildren(g[c.value]);
  }

  /** A call that writes one node. */
  lemma LeafIff(g: Graph, lim: Limits, c: Child, rem: int, depth: int, o: WafObject)
    requires !Enters(g, c, rem, depth)
    ensures var r := Ser(g, lim, c, rem, depth); Shows(g, lim.maxStringSize, c, rem, depth, o) <==> r.Done? && r.tree == o
  {
    hide ShowsFirst, ShowsName, IsCut, CutName, NameStorable, NameBytesOf, Cut, Storable, Utf16ToUtf8, Counts.Plus, CutCounts,
         NameCounts, StringRequest, NameRequests, ListCalls, MapCalls, SerAll, Children;
    NameIff(o, c.name, lim.maxStringSize);
    if c.value in g && g[c.value].JString? && o.kind.Str? {
      CutIff(o.kind.text, g[c.value].text, lim.maxStringSize);
    }
  }

  // ---------------------------------------------------------------- it is the outcome

  /** A call ends with the tree o if and only if o shows what the call was given; else it throws. */
  lemma {:induction false} SerIff(g: Graph, lim: Limits, c: Child, rem: int, depth: int, o: WafObject)
    ensures var r := Ser(g, lim, c, rem, depth); Shows(g, lim.maxStringSize, c, rem, depth, o) <==> r.Done? && r.tree == o
    decreases Levels(depth), 0
  {
    hide *;
    if Enters(g, c, rem, depth) {
      EntersIs(g, c, rem, depth);
      var kids := Admitted(g[c.value], rem - 1);
      EnteredCase(g, lim, c, rem, depth);
      ShowsEntered(g, lim.maxStringSize, c, rem, depth, o);
      NameIff(o, c.name, lim.maxStringSize);
      NameCutsIs(lim, c);
      SerAllIff(g, lim, kids, rem - 1, depth - 1, o.entries);
      AllLength(g, lim, kids, rem - 1, depth - 1, o.entries);
    } else {
      LeafIff(g, lim, c, rem, depth, o);
    }
  }

  lemma EntersIs(g: Graph, c: Child, rem: int, depth: int)
    ensures Enters(g, c, rem, depth) ==>
      rem > 0 && depth >= 0 && c.value in g && HasChildren(g[c.value]) && Levels(depth - 1) < Levels(depth)
  {
  }

  lemma NameCutsIs(lim: Limits, c: Child)
    ensures var cut := CutName(c.name, lim.maxStringSize); NameCuts(lim, c) <==> cut.Some? && NameStorable(cut.value)
  {
    hide CutName;
  }

  lemma AllLength(g: Graph, lim: Limits, cs: seq<Child>, rem: int, depth: int, os: seq<WafObject>)
    ensures ShowsAll(g, lim.maxStringSize, cs, rem, depth, os) ==> |os| == |cs|
  {
    hide Shows;
  }

  lemma {:induction false} SerAllIff(g: Graph, lim: Limits, cs: seq<Child>, rem: int, depth: int, os: seq<WafObject>)
    ensures var r := SerAll(g, lim, cs, rem, depth);
      ShowsAll(g, lim.maxStringSize, cs, rem, depth, os) <==> r.DoneAll? && r.trees == os
    decreases Levels(depth), 1 + |cs|
  {
    hide *;
    if cs == [] || os == [] {
      NothingShown(g, lim, cs, rem, depth, os);
    } else {
      AllStep(g, lim, cs, rem, depth);
      ShowsStep(g, lim.maxStringSize, cs, rem, depth, os);
      SerIff(g, lim, cs[0], rem, depth, os[0]);
      SerConserves(g, lim, cs[0], rem, depth);
      var first := Ser(g, lim, cs[0], rem, depth);
      if first.Done? && first.tree == os[0] {
        SerAllIff(g, lim, cs[1..], first.left, depth, os[1..]);
      }
      if first.Done? {
        var rest := SerAll(g, lim, cs[1..], first.left, depth);
        if rest.DoneAll? {
          SameFront(first.tree, rest.trees, os);
        }
      }
    }
  }

  lemma NothingShown(g: Graph, lim: Limits, cs: seq<Child>, rem: int, depth: int, os: seq<WafObject>)
    requires cs == [] || os == []
    ensures var r := SerAll(g, lim, cs, rem, depth);
      ShowsAll(g, lim.maxStringSize, cs, rem, depth, os) <==> r.DoneAll? && r.trees == os
  {
    hide Ser, Shows;
  }

  lemma ShowsStep(g: Graph, max: int, cs: seq<Child>, rem: int, depth: int, os: seq<WafObject>)
    requires cs != [] && os != []
    ensures ShowsAll(g, max, cs, rem, depth, os) <==>
      Shows(g, max, cs[0], rem, depth, os[0]) && ShowsAll(g, max, cs[1..], rem - Size(os[0]), depth, os[1..])
  {
    hide Shows, Size;
    var rest := os[1..];
    assert rest == [] ==> (ShowsAll(g, max, cs[1..], rem - Size(os[0]), depth, rest) <==> cs[1..] == []);
  }

  lemma SameFront<T>(x: T, a: seq<T>, s: seq<T>)
    requires s != []
    ensures [x] + a == s <==> x == s[0] && a == s[1..]
  {
    assert ([x] + a)[1..] == a && s == [s[0]] + s[1..];
  }

  // ---------------------------------------------------------------- what is counted and asked for

  /** The elements of a container as calls. */
  function Calls(o: JavaObject): seq<Child> {
    match o
    case JCollection(items) => ListCalls(items)
    case JArray(items) => ListCalls(items)
    case JIterable(items) => ListCalls(items)
    case JMap(pairs) => MapCalls(pairs)
    case _ => []
  }

  function One(b: bool): nat { if b then 1 else 0 }

  /**
    The counters a call raises by what it shows as o: tooLong by one for each name and each string that is longer than
    max, tooLarge for each node beyond the budget, tooDeep for each other node beyond the depth.
    */
  function Losses(g: Graph, max: int, c: Child, rem: int, depth: int, o: WafObject): Counts
    decreases o, 1
  {
    var name := One(c.name.Some? && |c.name.value| > max);
    if rem <= 0 then Counts(name, 1, 0)
    else if depth < 0 then Counts(name, 0, 1)
    else if c.value !in g then Counts(name, 0, 0)
    else if g[c.value].JString? then Counts(name + One(|g[c.value].text| > max), 0, 0)
    else
      var inner := LossesAll(g, max, Calls(g[c.value]), rem - 1, depth - 1, o.entries);
      Counts(name + inner.tooLong, inner.tooLarge, inner.tooDeep)
  }

  function LossesAll(g: Graph, max: int, cs: seq<Child>, rem: int, depth: int, os: seq<WafObject>): Counts
    decreases os, 0
  {
    if cs == [] || os == [] then Counts(0, 0, 0)
    else
      var a := Losses(g, max, cs[0], rem, depth, os[0]);
      var b := LossesAll(g, max, cs[1..], rem - Size(os[0]), depth, os[1..]);
      Counts(a.tooLong + b.tooLong, a.tooLarge + b.tooLarge, a.tooDeep + b.tooDeep)
  }

  /** The arrays of records a tree needs: one for each container that is not empty, before those inside it. */
  function Arrays(o: WafObject): seq<nat>
    decreases o, 1
  {
    if o.entries == [] then [] else [|o.entries|] + ArraysAll(o.entries)
  }

  function ArraysAll(os: seq<WafObject>): seq<nat>
    decreases os, 0
  {
    if os == [] then [] else Arrays(os[0]) + ArraysAll(os[1..])
  }

  /** For the text of s cut to max: three bytes for each code unit and a NUL are reserved, the bytes and a NUL used. */
  function TextFor(s: JavaString, max: int, bytes: seq<byte>): Request {
    Request(3 * Max(0, Min(|s|, max)) + 1, |bytes| + 1)
  }

  /** The string memory a tree needs: for the name of each node, then for its string or for what is inside it. */
  function Texts(g: Graph, max: int, c: Child, rem: int, depth: int, o: WafObject): seq<Request>
    decreases o, 1
  {
    var name := if c.name.Some? && o.name.Some? then [TextFor(c.name.value, max, o.name.value)] else [];
    if rem <= 0 || depth < 0 || c.value !in g then name
    else if g[c.value].JString? && o.kind.Str? then name + [TextFor(g[c.value].text, max, o.kind.text)]
    else name + TextsAll(g, max, Calls(g[c.value]), rem - 1, depth - 1, o.entries)
  }

  function TextsAll(g: Graph, max: int, cs: seq<Child>, rem: int, depth: int, os: seq<WafObject>): seq<Request>
    decreases os, 0
  {
    if cs == [] || os == [] then []
    else Texts(g, max, cs[0], rem, depth, os[0]) + TextsAll(g, max, cs[1..], rem - Size(os[0]), depth, os[1..])
  }

  lemma CallsOf(o: JavaObject)
    ensures if HasChildren(o) then Calls(o) == Children(o) else Calls(o) == []
  {
    hide ListCalls, MapCalls, Children;
    if HasChildren(o) {
      CallsAreChildren(o);
    }
  }

  /** Only the first calls matter, when there are no more nodes. */
  lemma {:induction false} FirstCalls(g: Graph, max: int, cs: seq<Child>, n: nat, rem: int, depth: int, os: seq<WafObject>)
    requires |os| <= n <= |cs|
    ensures LossesAll(g, max, cs, rem, depth, os) == LossesAll(g, max, cs[..n], rem, depth, os)
    ensures TextsAll(g, max, cs, rem, depth, os) == TextsAll(g, max, cs[..n], rem, depth, os)
    decreases |os|
  {
    hide Losses, Texts, Size;
    if os != [] {
      assert cs[..n][1..] == cs[1..][..n - 1];
      FirstCalls(g, max, cs[1..], n - 1, rem - Size(os[0]), depth, os[1..]);
    }
  }

  /** What a call that writes one node counts and asks for. */
  lemma LeafTakes(g: Graph, lim: Limits, c: Child, rem: int, depth: int)
    requires !Enters(g, c, rem, depth)
    ensures var r := Ser(g, lim, c, rem, depth);
      r.Done? ==>
        && r.counts == Losses(g, lim.maxStringSize, c, rem, depth, r.tree)
        && r.records == Arrays(r.tree)
        && r.strings == Texts(g, lim.maxStringSize, c, rem, depth, r.tree)
  {
    hide ListCalls, MapCalls, SerAll, Children, Utf16ToUtf8, Losses, Texts;
    LeafLosses(g, lim, c, rem, depth);
    LeafTexts(g, lim, c, rem, depth);
  }

  /** The value of a call that writes one node. */
  lemma LeafNamed(g: Graph, lim: Limits, name: Option<JavaString>, counts: Counts, v: Ref, left: int, depth: int)
    requires left < 0 || depth < 0 || v !in g || !HasChildren(g[v])
    ensures var r := SerNamed(g, lim, name, counts, v, left, depth);
      r.Done? ==>
        && r.tree.entries == []
        && r.counts.tooLong == counts.tooLong
             + One(left >= 0 && depth >= 0 && v in g && g[v].JString? && |g[v].text| > lim.maxStringSize)
        && r.counts.tooLarge == counts.tooLarge + One(left < 0)
        && r.counts.tooDeep == counts.tooDeep + One(left >= 0 && depth < 0)
  {
    hide SerAll, Children, Utf16ToUtf8, NameBytesOf, NameRequests, StringRequest, Storable;
  }

  lemma LeafLosses(g: Graph, lim: Limits, c: Child, rem: int, depth: int)
    requires !Enters(g, c, rem, depth)
    ensures var r := Ser(g, lim, c, rem, depth); r.Done? ==> r.counts == Losses(g, lim.maxStringSize, c, rem, depth, r.tree)
  {
    hide SerNamed, NameStorable, Calls;
    if Ser(g, lim, c, rem, depth).Done? {
      LeafNamed(g, lim, CutName(c.name, lim.maxStringSize).value, NameCounts(c.name, lim.maxStringSize), c.value, rem - 1, depth);
    }
  }

  lemma LeafTexts(g: Graph, lim: Limits, c: Child, rem: int, depth: int)
    requires !Enters(g, c, rem, depth)
    ensures var r := Ser(g, lim, c, rem, depth); r.Done? ==> r.strings == Texts(g, lim.maxStringSize, c, rem, depth, r.tree)
  {
    hide ListCalls, MapCalls, SerAll, Children, Utf16ToUtf8, Counts.Plus, CutCounts, NameCounts;
    if c.value in g {
      CallsOf(g[c.value]);
    }
  }

  /** What a call counts and asks for is determined by the tree it ends with. */
  lemma {:induction false} SerTakes(g: Graph, lim: Limits, c: Child, rem: int, depth: int)
    ensures var r := Ser(g, lim, c, rem, depth);
      r.Done? ==>
        && r.left == rem - Size(r.tree)
        && r.counts == Losses(g, lim.maxStringSize, c, rem, depth, r.tree)
        && r.records == Arrays(r.tree)
        && r.strings == Texts(g, lim.maxStringSize, c, rem, depth, r.tree)
    decreases Levels(depth), 0
  {
    hide *;
    SerConserves(g, lim, c, rem, depth);
    if Enters(g, c, rem, depth) {
      EntersIs(g, c, rem, depth);
      var kids := Admitted(g[c.value], rem - 1);
      EnteredCase(g, lim, c, rem, depth);
      SerAllTakes(g, lim, kids, rem - 1, depth - 1);
      var r := Ser(g, lim, c, rem, depth);
      if r.Done? {
        var all := SerAll(g, lim, kids, rem - 1, depth - 1);
        AdmittedAre(g[c.value], rem - 1);
        FirstCalls(g, lim.maxStringSize, Calls(g[c.value]), |kids|, rem - 1, depth - 1, r.tree.entries);
        NameCutsIs(lim, c);
        NameTakes(lim, c);
        NoStringInside(g[c.value]);
        EnteredTakes(g, lim.maxStringSize, c, rem, depth, r.tree, CutName(c.name, lim.maxStringSize));
        CountsAdd(NameCounts(c.name, lim.maxStringSize), all.counts);
        ArraysAre(r.tree);
      }
    } else {
      LeafTakes(g, lim, c, rem, depth);
    }
  }

  lemma AdmittedAre(o: JavaObject, left: nat)
    requires HasChildren(o)
    ensures |Admitted(o, left)| <= |Calls(o)| && Admitted(o, left) == Calls(o)[..|Admitted(o, left)|]
  {
    hide Children, Calls;
    CallsOf(o);
  }

  lemma CountsAdd(a: Counts, b: Counts)
    ensures a.Plus(b) == Counts(a.tooLong + b.tooLong, a.tooLarge + b.tooLarge, a.tooDeep + b.tooDeep)
  {
  }

  lemma ArraysAre(o: WafObject)
    ensures Arrays(o) == RecordRequests(|o.entries|) + ArraysAll(o.entries)
  {
  }

  lemma NoStringInside(o: JavaObject)
    requires HasChildren(o)
    ensures !ContainerKind(o).Str?
  {
  }

  lemma NameTakes(lim: Limits, c: Child)
    ensures NameCounts(c.name, lim.maxStringSize) == Counts(One(c.name.Some? && |c.name.value| > lim.maxStringSize), 0, 0)
    ensures var cut := CutName(c.name, lim.maxStringSize);
      cut.Some? ==>
        && (cut.value.Some? <==> c.name.Some?)
        && NameRequests(cut.value) ==
        if c.name.Some? then [TextFor(c.name.value, lim.maxStringSize, NameBytesOf(cut.value).value)] else []
  {
    hide Utf16ToUtf8;
  }

  lemma EnteredTakes(g: Graph, max: int, c: Child, rem: int, depth: int, o: WafObject, cut: Option<Option<JavaString>>)
    requires Enters(g, c, rem, depth) && cut.Some? && (cut.value.Some? <==> c.name.Some?) && o.name == NameBytesOf(cut.value)
    requires !o.kind.Str?
    ensures Losses(g, max, c, rem, depth, o) ==
      var inner := LossesAll(g, max, Calls(g[c.value]), rem - 1, depth - 1, o.entries);
      Counts(One(c.name.Some? && |c.name.value| > max) + inner.tooLong, inner.tooLarge, inner.tooDeep)
    ensures Texts(g, max, c, rem, depth, o) ==
      (if c.name.Some? then [TextFor(c.name.value, max, NameBytesOf(cut.value).value)] else [])
      + TextsAll(g, max, Calls(g[c.value]), rem - 1, depth - 1, o.entries)
  {
    hide Calls, LossesAll, TextsAll, TextFor;
  }

  lemma {:induction false} SerAllTakes(g: Graph, lim: Limits, cs: seq<Child>, rem: int, depth: int)
    ensures var r := SerAll(g, lim, cs, rem, depth);
      r.DoneAll? ==>
        && r.counts == LossesAll(g, lim.maxStringSize, cs, rem, depth, r.trees)
        && r.records == ArraysAll(r.trees)
        && r.strings == TextsAll(g, lim.maxStringSize, cs, rem, depth, r.trees)
    decreases Levels(depth), 1 + |cs|
  {
    hide *;
    if cs == [] {
      NothingTaken(g, lim, cs, rem, depth);
    } else {
      AllStep(g, lim, cs, rem, depth);
      SerTakes(g, lim, cs[0], rem, depth);
      var first := Ser(g, lim, cs[0], rem, depth);
      if first.Done? {
        SerAllTakes(g, lim, cs[1..], first.left, depth);
        var rest := SerAll(g, lim, cs[1..], first.left, depth);
        if rest.DoneAll? {
          CountsAdd(first.counts, rest.counts);
          TakesStep(g, lim.maxStringSize, cs, rem, depth, first.tree, rest.trees);
        }
      }
    }
  }

  lemma NothingTaken(g: Graph, lim: Limits, cs: seq<Child>, rem: int, depth: int)
    requires cs == []
    ensures SerAll(g, lim, cs, rem, depth) == DoneAll([], rem, Counts(0, 0, 0), [], [])
    ensures LossesAll(g, lim.maxStringSize, cs, rem, depth, []) == Counts(0, 0, 0)
    ensures ArraysAll([]) == [] && TextsAll(g, lim.maxStringSize, cs, rem, depth, []) == []
  {
  }

  lemma TakesStep(g: Graph, max: int, cs: seq<Child>, rem: int, depth: int, o: WafObject, os: seq<WafObject>)
    requires cs != []
    ensures LossesAll(g, max, cs, rem, depth, [o] + os) ==
      var a := Losses(g, max, cs[0], rem, depth, o);
      var b := LossesAll(g, max, cs[1..], rem - Size(o), depth, os);
      Counts(a.tooLong + b.tooLong, a.tooLarge + b.tooLarge, a.tooDeep + b.tooDeep)
    ensures ArraysAll([o] + os) == Arrays(o) + ArraysAll(os)
    ensures TextsAll(g, max, cs, rem, depth, [o] + os) ==
      Texts(g, max, cs[0], rem, depth, o) + TextsAll(g, max, cs[1..], rem - Size(o), depth, os)
  {
    hide Losses, Arrays, Texts, Size;
    assert ([o] + os)[1..] == os;
  }

  // ---------------------------------------------------------------- whole runs

  /** A run ends with the tree o if and only if o shows its root; what it counts and asks for follows from o. */
  lemma TruncateIff(g: Graph, lim: Limits, root: Ref, o: WafObject)
    ensures var r := Truncate(g, lim, root); var max := lim.maxStringSize; var c := Child(None, root);
      && (Shows(g, max, c, lim.maxElements, lim.maxDepth, o) <==> r.Done? && r.tree == o)
      && (r.Done? && r.tree == o ==>
            && r.left == lim.maxElements - Size(o)
            && r.counts == Losses(g, max, c, lim.maxElements, lim.maxDepth, o)
            && r.records == Arrays(o)
            && r.strings == Texts(g, max, c, lim.maxElements, lim.maxDepth, o))
  {
    hide *;
    TruncateIs(g, lim, root);
    SerIff(g, lim, Child(None, root), lim.maxElements, lim.maxDepth, o);
    SerTakes(g, lim, Child(None, root), lim.maxElements, lim.maxDepth);
  }

  /** A string within the budget and the depth: the encoding of its first max units, counted if that is not all of it. */
  lemma StringIsCut(g: Graph, lim: Limits, c: Child, rem: int, depth: int)
    requires rem > 0 && depth >= 0 && c.value in g && g[c.value].JString? && c.name == None
    ensures var r := Ser(g, lim, c, rem, depth); var s := g[c.value].text;
      r.Done? ==>
        && (exists t :: t <= s && |t| == Min(|s|, lim.maxStringSize) && r.tree.kind == Str(Utf16ToUtf8(t)))
        && r.counts == Counts(if |s| > lim.maxStringSize then 1 else 0, 0, 0)
  {
    hide *;
    var r := Ser(g, lim, c, rem, depth);
    if r.Done? {
      SerIff(g, lim, c, rem, depth, r.tree);
      SerTakes(g, lim, c, rem, depth);
      ShownString(g, lim.maxStringSize, c, rem, depth, r.tree);
    }
  }

  lemma ShownString(g: Graph, max: int, c: Child, rem: int, depth: int, o: WafObject)
    requires rem > 0 && depth >= 0 && c.value in g && g[c.value].JString? && c.name == None
    requires Shows(g, max, c, rem, depth, o)
    ensures exists t :: t <= g[c.value].text && |t| == Min(|g[c.value].text|, max) && o.kind == Str(Utf16ToUtf8(t))
    ensures Losses(g, max, c, rem, depth, o) == Counts(if |g[c.value].text| > max then 1 else 0, 0, 0)
  {
    hide Utf16ToUtf8, ShowsFirst, LossesAll;
    var t :| t <= g[c.value].text && |t| == Min(|g[c.value].text|, max) && o.kind.text == Utf16ToUtf8(t);
    assert o.kind == Str(Utf16ToUtf8(t));
  }

  /** A name, wherever the call is cut. */
  lemma NameIsCut(g: Graph, lim: Limits, c: Child, rem: int, depth: int, s: JavaString)
    requires c.name == Some(s) && Ser(g, lim, c, rem, depth).Done?
    ensures exists t :: t <= s && |t| == Min(|s|, lim.maxStringSize) && Ser(g, lim, c, rem, depth).tree.name == Some(Utf16ToUtf8(t))
  {
    hide Ser, Utf16ToUtf8;
    var o := Ser(g, lim, c, rem, depth).tree;
    SerIff(g, lim, c, rem, depth, o);
    var t :| t <= s && |t| == Min(|s|, lim.maxStringSize) && o.name.value == Utf16ToUtf8(t);
  }

  /** An entry with a null key has the empty name. */
  lemma NullKeyIsEmptyName(g: Graph, lim: Limits, c: Child, pairs: seq<JavaEntry>, rem: int, depth: int, i: nat)
    requires rem > 0 && depth >= 0 && c.value in g && g[c.value] == JMap(pairs)
    ensures var r := Ser(g, lim, c, rem, depth);
      r.Done? && i < |r.tree.entries| ==> i < |pairs| && (pairs[i].key == NullKey ==> r.tree.entries[i].name == Some([]))
  {
    hide Ser;
    var r := Ser(g, lim, c, rem, depth);
    if r.Done? && i < |r.tree.entries| {
      SerIff(g, lim, c, rem, depth, r.tree);
      MapCallsAre(pairs);
      NullKeyNamed(g, lim.maxStringSize, MapCalls(pairs)[..|r.tree.entries|], rem - 1, depth - 1, r.tree.entries, i);
    }
  }

  lemma {:induction false} NullKeyNamed(g: Graph, max: int, cs: seq<Child>, rem: int, depth: int, os: seq<WafObject>, i: nat)
    requires ShowsAll(g, max, cs, rem, depth, os) && i < |os|
    ensures cs[i].name == Some([]) ==> os[i].name == Some([])
    decreases i
  {
    if i > 0 {
      NullKeyNamed(g, max, cs[1..], rem - Size(os[0]), depth, os[1..], i - 1);
    } else {
      EmptyEncoding([]);
      hide Utf16ToUtf8;
    }
  }

  /** With a string limit that is not negative and leaves room for three bytes a unit and a NUL, nothing is thrown. */
  lemma {:induction false} NeverThrows(g: Graph, lim: Limits, c: Child, rem: int, depth: int)
    requires 0 <= lim.maxStringSize && 3 * lim.maxStringSize + 1 <= 0x7FFF_FFFF
    ensures Ser(g, lim, c, rem, depth).Done?
    decreases Levels(depth), 0
  {
    hide SerAll, Children, Utf16ToUtf8, Ser, Admitted;
    if Enters(g, c, rem, depth) {
      EnteredCase(g, lim, c, rem, depth);
      AllNeverThrow(g, lim, Admitted(g[c.value], rem - 1), rem - 1, depth - 1);
    } else {
      LeafNeverThrows(g, lim, c, rem, depth);
    }
  }

  lemma LeafNeverThrows(g: Graph, lim: Limits, c: Child, rem: int, depth: int)
    requires 0 <= lim.maxStringSize && 3 * lim.maxStringSize + 1 <= 0x7FFF_FFFF && !Enters(g, c, rem, depth)
    ensures Ser(g, lim, c, rem, depth).Done?
  {
    hide SerAll, Children, Utf16ToUtf8, StringRequest, NameRequests, NameBytesOf, Counts.Plus;
  }

  lemma {:induction false} AllNeverThrow(g: Graph, lim: Limits, cs: seq<Child>, rem: int, depth: int)
    requires 0 <= lim.maxStringSize && 3 * lim.maxStringSize + 1 <= 0x7FFF_FFFF
    ensures SerAll(g, lim, cs, rem, depth).DoneAll?
    decreases Levels(depth), 1 + |cs|
  {
    hide Ser;
    if cs != [] {
      NeverThrows(g, lim, cs[0], rem, depth);
      AllNeverThrow(g, lim, cs[1..], Ser(g, lim, cs[0], rem, depth).left, depth);
    }
  }
}
