/** Module inference of app.py (infer_modules_and_submodules, lines 105-182).

    The re-parse at line 132 is not modelled: each page is given directly as the ordered list of
    h1/h2/h3/p elements that `soup.find_all` yields for it at line 136, each with the text that
    `get_text(strip=True)` returns. The pages come in the order of the crawl's results. */
module Inference {
  import opened Wrappers
  import opened Text

  datatype Tag = H1 | H2 | H3 | P

  datatype Element = Element(tag: Tag, text: string)

  /** One entry of a module's "submodules" dict. */
  datatype Submodule = Submodule(name: string, description: string)

  /** {"module": name, "description": ..., "submodules": {...}}; the dict is a sequence of
      entries in insertion order, with distinct names. */
  datatype ModuleEntry = ModuleEntry(name: string, description: string, submodules: seq<Submodule>)

  /** modules_data, and current_module as an index into it (the source mutates the dict it
      appended, through that alias). */
  datatype Outline = Outline(modules: seq<ModuleEntry>, current: Option<nat>)

  // ---------------------------------------------------------------------------------------
  // The submodules dict

  function Keys(subs: seq<Submodule>): seq<string>
  {
    seq(|subs|, i requires 0 <= i < |subs| => subs[i].name)
  }

  predicate DistinctKeys(subs: seq<Submodule>)
  {
    forall i, j :: 0 <= i < j < |subs| ==> subs[i].name != subs[j].name
  }

  /** The position of key k, if present. */
  function IndexOf(subs: seq<Submodule>, k: string): (r: Option<nat>)
    ensures r.Some? ==> r.value < |subs| && subs[r.value].name == k
    ensures r.None? ==> forall i :: 0 <= i < |subs| ==> subs[i].name != k
  {
    if subs == [] then None
    else if subs[0].name == k then Some(0)
    else match IndexOf(subs[1..], k)
      case None => None
      case Some(j) => Some(j + 1)
  }

  lemma {:induction false} IndexOfUnique(subs: seq<Submodule>, k: string, i: nat)
    requires DistinctKeys(subs) && i < |subs| && subs[i].name == k
    ensures IndexOf(subs, k) == Some(i)
  {
    if i > 0 {
      IndexOfUnique(subs[1..], k, i - 1);
    }
  }

  /** `submodules.get(k)`. */
  function Get(subs: seq<Submodule>, k: string): Option<string>
  {
    match IndexOf(subs, k)
    case None => None
    case Some(i) => Some(subs[i].description)
  }

  /** `submodules[k] = v` on an insertion-ordered dict: an existing key keeps its position and
      only its value changes; a new key goes to the end. */
  function Put(subs: seq<Submodule>, k: string, v: string): (r: seq<Submodule>)
    ensures IndexOf(subs, k).Some? ==> Keys(r) == Keys(subs)
    ensures IndexOf(subs, k).None? ==> Keys(r) == Keys(subs) + [k]
  {
    match IndexOf(subs, k)
    case Some(i) => subs[i := Submodule(k, v)]
    case None => subs + [Submodule(k, v)]
  }

  /** Read back through Get, an assignment stores v under k and leaves every other key alone;
      the keys stay distinct. */
  lemma PutGet(subs: seq<Submodule>, k: string, v: string)
    requires DistinctKeys(subs)
    ensures DistinctKeys(Put(subs, k, v))
    ensures Get(Put(subs, k, v), k) == Some(v)
    ensures forall k' :: k' != k ==> Get(Put(subs, k, v), k') == Get(subs, k')
  {
    var r := Put(subs, k, v);
    var i := match IndexOf(subs, k) case Some(i) => i case None => |subs|;
    assert r[i] == Submodule(k, v);
    assert forall j :: 0 <= j < |subs| && j != i ==> r[j] == subs[j];
    IndexOfUnique(r, k, i);
    forall k' | k' != k ensures Get(r, k') == Get(subs, k') {
      match IndexOf(subs, k')
      case None =>
      case Some(j) => IndexOfUnique(r, k', j);
    }
  }

  // ---------------------------------------------------------------------------------------
  // The walk over the elements (lines 135-168)

  predicate WellFormed(o: Outline)
  {
    && (o.current.Some? ==> |o.modules| > 0 && o.current.value == |o.modules| - 1)
    && (forall i :: 0 <= i < |o.modules| ==> DistinctKeys(o.modules[i].submodules))
  }

  /** A paragraph under the current module m (lines 155-168). The last key is read in insertion
      order, and the key "" counts as "no submodule" because the source tests its truthiness. */
  function Route(m: ModuleEntry, text: string): (r: ModuleEntry)
    requires DistinctKeys(m.submodules)
    ensures r.name == m.name && Keys(r.submodules) == Keys(m.submodules) && DistinctKeys(r.submodules)
    // an empty description takes the paragraph, even when submodules exist
    ensures m.description == "" ==> r == m.(description := text)
    // otherwise the last submodule in insertion order takes it, unless its key is ""
    ensures m.description != "" && m.submodules != [] && m.submodules[|m.submodules| - 1].name != "" ==>
      var last := m.submodules[|m.submodules| - 1];
      && r.description == m.description
      && Get(r.submodules, last.name) ==
           Some(if last.description == "" then text else last.description + " " + text)
      && forall k :: k != last.name ==> Get(r.submodules, k) == Get(m.submodules, k)
    // with no usable submodule it is appended to the description
    ensures m.description != "" && (m.submodules == [] || m.submodules[|m.submodules| - 1].name == "") ==>
      r == m.(description := m.description + " " + text)
  {
    if m.description == "" then m.(description := text)
    else if m.submodules != [] && m.submodules[|m.submodules| - 1].name != "" then
      var last := m.submodules[|m.submodules| - 1];
      var d := if last.description == "" then text else last.description + " " + text;
      assert IndexOf(m.submodules, last.name).Some?;
      PutGet(m.submodules, last.name, d);
      m.(submodules := Put(m.submodules, last.name, d))
    else m.(description := m.description + " " + text)
  }

  /** One element of the walk. */
  function Apply(o: Outline, e: Element): (r: Outline)
    requires WellFormed(o)
    ensures WellFormed(r)
    ensures |r.modules| == |o.modules| + (if e.tag == H2 then 1 else 0)
    ensures forall i :: 0 <= i < |o.modules| ==> r.modules[i].name == o.modules[i].name
    // only the current module can change
    ensures forall i :: 0 <= i < |o.modules| && o.current != Some(i) ==> r.modules[i] == o.modules[i]
    // an h2 appends an empty module and makes it current
    ensures e.tag == H2 ==>
      r.modules == o.modules + [ModuleEntry(e.text, "", [])] && r.current == Some(|o.modules|)
    // h1 changes nothing; neither does an h3 or p without a current module
    ensures e.tag == H1 || (e.tag != H2 && o.current.None?) ==> r == o
    ensures e.tag != H2 ==> r.current == o.current
    // an h3 assigns "" to its key in the current module's dict
    ensures e.tag == H3 && o.current.Some? ==>
      r.modules[o.current.value] ==
        o.modules[o.current.value].(submodules := Put(o.modules[o.current.value].submodules, e.text, ""))
    // a p is routed inside the current module
    ensures e.tag == P && o.current.Some? ==> r.modules[o.current.value] == Route(o.modules[o.current.value], e.text)
  {
    match e.tag
    case H1 => o
    case H2 => Outline(o.modules + [ModuleEntry(e.text, "", [])], Some(|o.modules|))
    case H3 =>
      (match o.current
       case None => o
       case Some(i) =>
         var m := o.modules[i];
         PutGet(m.submodules, e.text, "");
         o.(modules := o.modules[i := m.(submodules := Put(m.submodules, e.text, ""))]))
    case P =>
      (match o.current
       case None => o
       case Some(i) => o.(modules := o.modules[i := Route(o.modules[i], e.text)]))
  }

  /** The walk over one page's elements, from state o. */
  function FoldElements(o: Outline, es: seq<Element>): (r: Outline)
    requires WellFormed(o)
    ensures WellFormed(r)
    decreases |es|
  {
    if es == [] then o else Apply(FoldElements(o, es[..|es| - 1]), es[|es| - 1])
  }

  /** `current_module = None` at the start of every page (line 135). */
  function StartPage(o: Outline): Outline
  {
    Outline(o.modules, None)
  }

  /** The walk over all pages; modules accumulate into one list. */
  function FoldPages(pages: seq<seq<Element>>): (r: Outline)
    ensures WellFormed(r)
    decreases |pages|
  {
    if pages == [] then Outline([], None)
    else FoldElements(StartPage(FoldPages(pages[..|pages| - 1])), pages[|pages| - 1])
  }

  /** modules_data after the walk. */
  function RawModules(pages: seq<seq<Element>>): seq<ModuleEntry>
  {
    FoldPages(pages).modules
  }

  // ---------------------------------------------------------------------------------------
  // Post-processing (lines 170-180)

  function NormalizeSubmodules(subs: seq<Submodule>): (r: seq<Submodule>)
    ensures Keys(r) == Keys(subs)
  {
    seq(|subs|, i requires 0 <= i < |subs| => Submodule(subs[i].name, Normalize(subs[i].description)))
  }

  /** The clean-up of lines 172-174 for one module: the name, the keys and their order are kept. */
  function NormalizeModule(m: ModuleEntry): (r: ModuleEntry)
    ensures r.name == m.name && Keys(r.submodules) == Keys(m.submodules)
  {
    ModuleEntry(m.name, Normalize(m.description), NormalizeSubmodules(m.submodules))
  }

  /** After clean-up every description, of the module and of each submodule, is clean. */
  lemma NormalizeModuleClean(m: ModuleEntry)
    ensures Clean(NormalizeModule(m).description)
    ensures forall i :: 0 <= i < |NormalizeModule(m).submodules| ==>
      Clean(NormalizeModule(m).submodules[i].description)
  {
  }

  function NormalizeAll(ms: seq<ModuleEntry>): seq<ModuleEntry>
  {
    seq(|ms|, i requires 0 <= i < |ms| => NormalizeModule(ms[i]))
  }

  /** `if module["description"] or module["submodules"]`. */
  predicate Keep(m: ModuleEntry)
  {
    m.description != "" || m.submodules != []
  }

  /** The filter of lines 177-180, in order. */
  function KeepNonEmpty(ms: seq<ModuleEntry>): (r: seq<ModuleEntry>)
    ensures |r| <= |ms|
    ensures forall i :: 0 <= i < |r| ==> Keep(r[i]) && r[i] in ms
    ensures forall m :: m in ms && Keep(m) ==> m in r
    decreases |ms|
  {
    if ms == [] then []
    else
      var init := ms[..|ms| - 1];
      var last := ms[|ms| - 1];
      assert ms == init + [last];
      KeepNonEmpty(init) + (if Keep(last) then [last] else [])
  }

  /** infer_modules_and_submodules. */
  function Infer(pages: seq<seq<Element>>): seq<ModuleEntry>
  {
    KeepNonEmpty(NormalizeAll(RawModules(pages)))
  }

  // ---------------------------------------------------------------------------------------
  // Properties of the walk

  function Names(ms: seq<ModuleEntry>): seq<string>
  {
    seq(|ms|, i requires 0 <= i < |ms| => ms[i].name)
  }

  /** The texts of a page's h2 elements, in order. */
  function H2Texts(es: seq<Element>): seq<string>
    decreases |es|
  {
    if es == [] then []
    else H2Texts(es[..|es| - 1]) + (if es[|es| - 1].tag == H2 then [es[|es| - 1].text] else [])
  }

  function AllH2Texts(pages: seq<seq<Element>>): seq<string>
    decreases |pages|
  {
    if pages == [] then [] else AllH2Texts(pages[..|pages| - 1]) + H2Texts(pages[|pages| - 1])
  }

  lemma {:induction false} FoldNames(o: Outline, es: seq<Element>)
    requires WellFormed(o)
    ensures Names(FoldElements(o, es).modules) == Names(o.modules) + H2Texts(es)
    decreases |es|
  {
    if es != [] {
      var init := es[..|es| - 1];
      var e := es[|es| - 1];
      FoldNames(o, init);
      var before := FoldElements(o, init);
      if e.tag == H2 {
        assert Names(Apply(before, e).modules) == Names(before.modules) + [e.text];
      } else {
        assert Names(Apply(before, e).modules) == Names(before.modules);
      }
    }
  }

  /** Before filtering there is exactly one module per h2 element, named by its text, in
      document and crawl order. */
  lemma {:induction false} ModuleNames(pages: seq<seq<Element>>)
    ensures Names(RawModules(pages)) == AllH2Texts(pages)
    ensures |RawModules(pages)| == |AllH2Texts(pages)|
    decreases |pages|
  {
    if pages != [] {
      var init := pages[..|pages| - 1];
      ModuleNames(init);
      FoldNames(StartPage(FoldPages(init)), pages[|pages| - 1]);
    }
  }

  lemma {:induction false} FoldAppend(o: Outline, a: seq<Element>, b: seq<Element>)
    requires WellFormed(o)
    ensures FoldElements(o, a + b) == FoldElements(FoldElements(o, a), b)
    decreases |b|
  {
    if b == [] {
      assert a + b == a;
    } else {
      var init := b[..|b| - 1];
      assert (a + b)[..|a + b| - 1] == a + init;
      assert (a + b)[|a + b| - 1] == b[|b| - 1];
      FoldAppend(o, a, init);
    }
  }

  lemma {:induction false} NoModuleYet(o: Outline, es: seq<Element>)
    requires WellFormed(o) && o.current.None?
    requires forall i :: 0 <= i < |es| ==> es[i].tag != H2
    ensures FoldElements(o, es) == o
    decreases |es|
  {
    if es != [] {
      NoModuleYet(o, es[..|es| - 1]);
    }
  }

  /** Everything before the first h2 of a page is ignored, even when earlier pages left modules:
      the current module is reset at the start of each page. */
  lemma LeadingNonH2Ignored(o: Outline, pre: seq<Element>, rest: seq<Element>)
    requires WellFormed(o)
    requires forall i :: 0 <= i < |pre| ==> pre[i].tag != H2
    ensures FoldElements(StartPage(o), pre + rest) == FoldElements(StartPage(o), rest)
  {
    FoldAppend(StartPage(o), pre, rest);
    NoModuleYet(StartPage(o), pre);
  }

  function RemoveH1(es: seq<Element>): seq<Element>
    decreases |es|
  {
    if es == [] then []
    else RemoveH1(es[..|es| - 1]) + (if es[|es| - 1].tag == H1 then [] else [es[|es| - 1]])
  }

  /** h1 elements have no effect anywhere in a page. */
  lemma {:induction false} H1Ignored(o: Outline, es: seq<Element>)
    requires WellFormed(o)
    ensures FoldElements(o, es) == FoldElements(o, RemoveH1(es))
    decreases |es|
  {
    if es != [] {
      var init := es[..|es| - 1];
      var e := es[|es| - 1];
      H1Ignored(o, init);
      var d := RemoveH1(init);
      if e.tag != H1 {
        assert RemoveH1(es) == d + [e];
        assert (d + [e])[..|d + [e]| - 1] == d;
      } else {
        assert RemoveH1(es) == d;
      }
    }
  }

  function ShiftBy(c: Option<nat>, n: nat): Option<nat>
  {
    match c
    case None => None
    case Some(i) => Some(i + n)
  }

  lemma ApplyShift(prior: seq<ModuleEntry>, o: Outline, e: Element)
    requires WellFormed(Outline(prior, None)) && WellFormed(o)
    ensures WellFormed(Outline(prior + o.modules, ShiftBy(o.current, |prior|)))
    ensures Apply(Outline(prior + o.modules, ShiftBy(o.current, |prior|)), e) ==
            Outline(prior + Apply(o, e).modules, ShiftBy(Apply(o, e).current, |prior|))
  {
    var big := Outline(prior + o.modules, ShiftBy(o.current, |prior|));
    assert WellFormed(big) by {
      forall i | 0 <= i < |big.modules| ensures DistinctKeys(big.modules[i].submodules) {
        if i >= |prior| {
          assert big.modules[i] == o.modules[i - |prior|];
        }
      }
    }
    match o.current
    case None =>
    case Some(i) =>
      var r := Apply(o, e);
      if e.tag == H2 {
        assert (prior + o.modules) + [ModuleEntry(e.text, "", [])] == prior + r.modules;
      } else {
        assert prior + r.modules == (prior + o.modules)[|prior| + i := r.modules[i]];
      }
  }

  lemma {:induction false} FoldShift(prior: seq<ModuleEntry>, o: Outline, es: seq<Element>)
    requires WellFormed(Outline(prior, None)) && WellFormed(o)
    ensures WellFormed(Outline(prior + o.modules, ShiftBy(o.current, |prior|)))
    ensures FoldElements(Outline(prior + o.modules, ShiftBy(o.current, |prior|)), es) ==
            Outline(prior + FoldElements(o, es).modules, ShiftBy(FoldElements(o, es).current, |prior|))
    decreases |es|
  {
    ApplyShift(prior, o, Element(H1, ""));
    if es != [] {
      var init := es[..|es| - 1];
      FoldShift(prior, o, init);
      ApplyShift(prior, FoldElements(o, init), es[|es| - 1]);
    }
  }

  /** The modules one page contributes on its own. */
  function PageModules(page: seq<Element>): seq<ModuleEntry>
  {
    FoldElements(Outline([], None), page).modules
  }

  lemma PageFrom(prior: seq<ModuleEntry>, page: seq<Element>)
    requires WellFormed(Outline(prior, None))
    ensures FoldElements(Outline(prior, None), page).modules == prior + PageModules(page)
  {
    FoldShift(prior, Outline([], None), page);
    assert prior + [] == prior;
  }

  function ConcatPages(pages: seq<seq<Element>>): seq<ModuleEntry>
    decreases |pages|
  {
    if pages == [] then [] else ConcatPages(pages[..|pages| - 1]) + PageModules(pages[|pages| - 1])
  }

  /** Although modules accumulate in one global list, no page changes a module of an earlier
      page: the result is the concatenation of what each page yields on its own. */
  lemma {:induction false} PagesIndependent(pages: seq<seq<Element>>)
    ensures RawModules(pages) == ConcatPages(pages)
    decreases |pages|
  {
    if pages != [] {
      var init := pages[..|pages| - 1];
      PagesIndependent(init);
      PageFrom(RawModules(init), pages[|pages| - 1]);
    }
  }

  lemma ApplyKeepsPrefix(o: Outline, e: Element, i: nat)
    requires WellFormed(o) && i < |o.modules|
    ensures o.modules[i].description <= Apply(o, e).modules[i].description
  {
  }

  lemma {:induction false} FoldKeepsPrefix(o: Outline, es: seq<Element>, i: nat)
    requires WellFormed(o) && i < |o.modules|
    ensures i < |FoldElements(o, es).modules|
    ensures FoldElements(o, es).modules[i].name == o.modules[i].name
    ensures o.modules[i].description <= FoldElements(o, es).modules[i].description
    decreases |es|
  {
    if es != [] {
      var init := es[..|es| - 1];
      FoldKeepsPrefix(o, init, i);
      ApplyKeepsPrefix(FoldElements(o, init), es[|es| - 1], i);
    }
  }

  /** The first paragraph right after an h2 opens that module's description: later paragraphs
      can only be appended after it, whatever follows. */
  lemma FirstParagraphOpensDescription(name: string, text: string, rest: seq<Element>)
    ensures var ms := PageModules([Element(H2, name), Element(P, text)] + rest);
      |ms| > 0 && ms[0].name == name && text <= ms[0].description
  {
    var o0 := Outline([], None);
    var head := [Element(H2, name), Element(P, text)];
    FoldAppend(o0, head, rest);
    var o1 := Apply(o0, Element(H2, name));
    assert FoldElements(o0, head[..1]) == o1 by {
      assert head[..1][..0] == [];
    }
    var o2 := FoldElements(o0, head);
    assert o2 == Apply(o1, Element(P, text));
    assert o2.modules == [ModuleEntry(name, text, [])];
    FoldKeepsPrefix(o2, rest, 0);
  }

  // ---------------------------------------------------------------------------------------
  // Properties of the post-processing and of the whole inference

  lemma NormalizeModuleIdempotent(m: ModuleEntry)
    ensures NormalizeModule(NormalizeModule(m)) == NormalizeModule(m)
  {
    NormalizeIdempotent(m.description);
    var subs := NormalizeSubmodules(m.submodules);
    forall i | 0 <= i < |subs| ensures NormalizeSubmodules(subs)[i] == subs[i] {
      NormalizeIdempotent(m.submodules[i].description);
    }
  }

  lemma {:induction false} KeepNonEmptyAppend(a: seq<ModuleEntry>, b: seq<ModuleEntry>)
    ensures KeepNonEmpty(a + b) == KeepNonEmpty(a) + KeepNonEmpty(b)
    decreases |b|
  {
    if b == [] {
      assert a + b == a;
    } else {
      var init := b[..|b| - 1];
      assert (a + b)[..|a + b| - 1] == a + init;
      assert (a + b)[|a + b| - 1] == b[|b| - 1];
      KeepNonEmptyAppend(a, init);
    }
  }

  lemma RawModulesAppend(pages: seq<seq<Element>>, page: seq<Element>)
    ensures RawModules(pages + [page]) == RawModules(pages) + PageModules(page)
  {
    var all := pages + [page];
    assert all[..|all| - 1] == pages;
    PageFrom(RawModules(pages), page);
  }

  lemma RawModulesOne(page: seq<Element>)
    ensures RawModules([page]) == PageModules(page)
  {
    assert [page][..0] == [];
    assert FoldPages([page]) == FoldElements(StartPage(FoldPages([])), page);
  }

  lemma NormalizeAllAppend(a: seq<ModuleEntry>, b: seq<ModuleEntry>)
    ensures NormalizeAll(a + b) == NormalizeAll(a) + NormalizeAll(b)
  {
  }

  /** The inference is compositional in the pages: appending a page appends exactly what that
      page yields on its own, after the earlier pages' output, order preserved. */
  lemma InferAppendPage(pages: seq<seq<Element>>, page: seq<Element>)
    ensures Infer(pages + [page]) == Infer(pages) + Infer([page])
  {
    RawModulesAppend(pages, page);
    RawModulesOne(page);
    NormalizeAllAppend(RawModules(pages), PageModules(page));
    KeepNonEmptyAppend(NormalizeAll(RawModules(pages)), NormalizeAll(PageModules(page)));
  }

  /** A module whose descriptions are already clean is left as it is by the clean-up. */
  lemma NormalizeModuleOfClean(m: ModuleEntry)
    requires Clean(m.description)
    requires forall i :: 0 <= i < |m.submodules| ==> Clean(m.submodules[i].description)
    ensures NormalizeModule(m) == m
  {
    NormalizeOfClean(m.description);
    NormalizeSubmodulesOfClean(m.submodules);
  }

  lemma NormalizeSubmodulesOfClean(subs: seq<Submodule>)
    requires forall i :: 0 <= i < |subs| ==> Clean(subs[i].description)
    ensures NormalizeSubmodules(subs) == subs
  {
    var r := NormalizeSubmodules(subs);
    forall i | 0 <= i < |subs| ensures r[i] == subs[i] {
      NormalizeOfClean(subs[i].description);
    }
  }

  lemma DistinctKeysByName(a: seq<Submodule>, b: seq<Submodule>)
    requires Keys(a) == Keys(b) && DistinctKeys(a)
    ensures DistinctKeys(b)
  {
    assert |a| == |Keys(a)|;
    forall i | 0 <= i < |b| ensures b[i].name == a[i].name {
      assert Keys(a)[i] == Keys(b)[i];
    }
  }

  /** The filter's test on a cleaned-up module, read back on the module before clean-up. */
  lemma NormalizeModuleKept(m: ModuleEntry)
    requires DistinctKeys(m.submodules)
    ensures Keep(NormalizeModule(m)) <==> NonSpace(m.description) != [] || m.submodules != []
    ensures DistinctKeys(NormalizeModule(m).submodules)
  {
    NormalizeEmptyIff(m.description);
    var r := NormalizeModule(m);
    assert |r.submodules| == |Keys(r.submodules)| == |Keys(m.submodules)| == |m.submodules|;
    DistinctKeysByName(m.submodules, r.submodules);
  }

  /** What the output is made of: each entry is a cleaned-up module of the walk that holds some
      non-whitespace description text or some submodule, and every such module is in the output;
      every description is clean and the submodule keys are distinct. */
  lemma InferShape(pages: seq<seq<Element>>)
    ensures var raw := RawModules(pages); var out := Infer(pages);
      && (forall i :: 0 <= i < |out| ==>
            && Clean(out[i].description)
            && (forall k :: 0 <= k < |out[i].submodules| ==> Clean(out[i].submodules[k].description))
            && DistinctKeys(out[i].submodules)
            && exists j :: 0 <= j < |raw| && out[i] == NormalizeModule(raw[j])
                 && (NonSpace(raw[j].description) != [] || raw[j].submodules != []))
      && (forall j :: 0 <= j < |raw| && (NonSpace(raw[j].description) != [] || raw[j].submodules != []) ==>
            NormalizeModule(raw[j]) in out)
  {
    var raw := RawModules(pages);
    var normal := NormalizeAll(raw);
    var out := Infer(pages);
    assert WellFormed(FoldPages(pages));
    forall j | 0 <= j < |raw|
      ensures Keep(normal[j]) <==> NonSpace(raw[j].description) != [] || raw[j].submodules != []
      ensures DistinctKeys(normal[j].submodules)
      ensures Clean(normal[j].description)
      ensures forall k :: 0 <= k < |normal[j].submodules| ==> Clean(normal[j].submodules[k].description)
    {
      NormalizeModuleKept(raw[j]);
      NormalizeModuleClean(raw[j]);
    }
    forall i | 0 <= i < |out|
      ensures exists j :: 0 <= j < |raw| && out[i] == NormalizeModule(raw[j])
                 && (NonSpace(raw[j].description) != [] || raw[j].submodules != [])
    {
      var j :| 0 <= j < |normal| && normal[j] == out[i];
    }
  }

  // ---------------------------------------------------------------------------------------
  // Worked examples

  lemma FoldSnoc(o: Outline, es: seq<Element>, e: Element, before: Outline, after: Outline)
    requires WellFormed(o) && WellFormed(before)
    requires FoldElements(o, es) == before && Apply(before, e) == after
    ensures FoldElements(o, es + [e]) == after
  {
    assert (es + [e])[..|es|] == es;
  }

  /** <h2>auth</h2><p>descA</p><h3>login</h3><p>descB</p><h2>billing</h2> */
  function AuthPage(auth: string, descA: string, login: string, descB: string, billing: string): seq<Element>
  {
    [Element(H2, auth), Element(P, descA), Element(H3, login), Element(P, descB), Element(H2, billing)]
  }

  /** The paragraph after an h3, in a module that already has a description, fills that
      submodule. */
  lemma ParagraphToSubmodule(name: string, desc: string, key: string, text: string)
    requires desc != "" && key != ""
    ensures Apply(Outline([ModuleEntry(name, desc, [Submodule(key, "")])], Some(0)), Element(P, text)) ==
            Outline([ModuleEntry(name, desc, [Submodule(key, text)])], Some(0))
  {
    var subs := [Submodule(key, "")];
    assert IndexOf(subs, key) == Some(0);
    assert Put(subs, key, text) == [Submodule(key, text)];
  }

  lemma AuthHead(auth: string, descA: string, login: string)
    ensures FoldElements(Outline([], None), [Element(H2, auth), Element(P, descA), Element(H3, login)]) ==
            Outline([ModuleEntry(auth, descA, [Submodule(login, "")])], Some(0))
  {
    var e0, e1, e2 := Element(H2, auth), Element(P, descA), Element(H3, login);
    var o0 := Outline([], None);
    var o1 := Outline([ModuleEntry(auth, "", [])], Some(0));
    var o2 := Outline([ModuleEntry(auth, descA, [])], Some(0));
    var o3 := Outline([ModuleEntry(auth, descA, [Submodule(login, "")])], Some(0));
    assert Put([], login, "") == [Submodule(login, "")];
    var p1 := [e0];
    var p2 := p1 + [e1];
    assert [] + [e0] == p1;
    FoldSnoc(o0, [], e0, o0, o1);
    FoldSnoc(o0, p1, e1, o1, o2);
    FoldSnoc(o0, p2, e2, o2, o3);
    assert p2 + [e2] == [e0, e1, e2];
  }

  /** The walk over that page: the paragraph after the h3 goes to the submodule, because the
      module already has a description. */
  lemma AuthWalk(auth: string, descA: string, login: string, descB: string, billing: string)
    requires descA != "" && login != ""
    ensures PageModules(AuthPage(auth, descA, login, descB, billing)) ==
      [ModuleEntry(auth, descA, [Submodule(login, descB)]), ModuleEntry(billing, "", [])]
  {
    var page := AuthPage(auth, descA, login, descB, billing);
    var head := [Element(H2, auth), Element(P, descA), Element(H3, login)];
    var o0 := Outline([], None);
    var o3 := Outline([ModuleEntry(auth, descA, [Submodule(login, "")])], Some(0));
    var o4 := Outline([ModuleEntry(auth, descA, [Submodule(login, descB)])], Some(0));
    var o5 := Outline([ModuleEntry(auth, descA, [Submodule(login, descB)]), ModuleEntry(billing, "", [])], Some(1));
    AuthHead(auth, descA, login);
    ParagraphToSubmodule(auth, descA, login, descB);
    var e3, e4 := Element(P, descB), Element(H2, billing);
    FoldSnoc(o0, head, e3, o3, o4);
    FoldSnoc(o0, head + [e3], e4, o4, o5);
    assert head + [e3] + [e4] == page;
  }

  /** ... and the inference on that page alone keeps the first module with its submodule and
      drops the empty second one (for instance "Auth", "desc A", "Login", "desc B", "Billing"). */
  lemma AuthExample(auth: string, descA: string, login: string, descB: string, billing: string)
    requires descA != "" && login != "" && Clean(descA) && Clean(descB)
    ensures Infer([AuthPage(auth, descA, login, descB, billing)]) ==
      [ModuleEntry(auth, descA, [Submodule(login, descB)])]
  {
    var first := ModuleEntry(auth, descA, [Submodule(login, descB)]);
    var second := ModuleEntry(billing, "", []);
    AuthWalk(auth, descA, login, descB, billing);
    RawModulesOne(AuthPage(auth, descA, login, descB, billing));
    NormalizeModuleOfClean(first);
    NormalizeModuleOfClean(second);
    KeepFirst(first, second);
  }

  lemma KeepFirst(first: ModuleEntry, second: ModuleEntry)
    requires NormalizeModule(first) == first && NormalizeModule(second) == second
    requires Keep(first) && !Keep(second)
    ensures KeepNonEmpty(NormalizeAll([first, second])) == [first]
  {
    assert NormalizeAll([first, second]) == [first, second];
    assert [first, second][..1] == [first];
    assert [first][..0] == [];
  }

  /** A paragraph that follows an h3 directly under a module heading still becomes the module's
      description, because that description is empty; the submodule stays empty. */
  lemma H3ThenParagraph(name: string, key: string, text: string)
    ensures PageModules([Element(H2, name), Element(H3, key), Element(P, text)]) ==
            [ModuleEntry(name, text, [Submodule(key, "")])]
  {
    var e0, e1, e2 := Element(H2, name), Element(H3, key), Element(P, text);
    var o0 := Outline([], None);
    var o1 := Outline([ModuleEntry(name, "", [])], Some(0));
    var o2 := Outline([ModuleEntry(name, "", [Submodule(key, "")])], Some(0));
    var o3 := Outline([ModuleEntry(name, text, [Submodule(key, "")])], Some(0));
    assert Put([], key, "") == [Submodule(key, "")];
    var p1 := [e0];
    var p2 := p1 + [e1];
    assert [] + [e0] == p1;
    FoldSnoc(o0, [], e0, o0, o1);
    FoldSnoc(o0, p1, e1, o1, o2);
    FoldSnoc(o0, p2, e2, o2, o3);
    assert p2 + [e2] == [e0, e1, e2];
  }

  /** A repeated h3 resets that submodule to "" but keeps its place in insertion order, so the
      next paragraph goes to the submodule that was added last, not to the repeated one. */
  lemma RepeatedH3KeepsOrder(name: string, desc: string, a: string, da: string, b: string, db: string, text: string)
    requires a != b && desc != "" && b != ""
    ensures var o := Outline([ModuleEntry(name, desc, [Submodule(a, da), Submodule(b, db)])], Some(0));
      Apply(Apply(o, Element(H3, a)), Element(P, text)) ==
      Outline([ModuleEntry(name, desc, [Submodule(a, ""),
               Submodule(b, if db == "" then text else db + " " + text)])], Some(0))
  {
    var subs := [Submodule(a, da), Submodule(b, db)];
    assert IndexOf(subs, a) == Some(0);
    var subs' := [Submodule(a, ""), Submodule(b, db)];
    assert Put(subs, a, "") == subs';
    assert subs'[1..] == [Submodule(b, db)];
    assert IndexOf(subs', b) == Some(1);
    var d := if db == "" then text else db + " " + text;
    assert Put(subs', b, d) == [Submodule(a, ""), Submodule(b, d)];
    var o := Outline([ModuleEntry(name, desc, subs)], Some(0));
    var m' := ModuleEntry(name, desc, subs');
    assert Apply(o, Element(H3, a)) == Outline([m'], Some(0));
    assert Route(m', text) == ModuleEntry(name, desc, [Submodule(a, ""), Submodule(b, d)]);
  }

  /** A submodule whose key is "" is falsy as a last key: the paragraph is appended to the
      module's description instead. */
  lemma EmptyKeyToDescription(name: string, desc: string, d: string, text: string)
    requires desc != ""
    ensures Apply(Outline([ModuleEntry(name, desc, [Submodule("", d)])], Some(0)), Element(P, text)) ==
            Outline([ModuleEntry(name, desc + " " + text, [Submodule("", d)])], Some(0))
  {
  }

  // ---------------------------------------------------------------------------------------
  // The source as written: the walk, the clean-up loop and the filter loop

  /** The inner loop of lines 135-168 over one page's elements, appending to modules_data. */
  method WalkPage(modules: seq<ModuleEntry>, page: seq<Element>) returns (modules': seq<ModuleEntry>)
    requires WellFormed(Outline(modules, None))
    ensures modules' == FoldElements(Outline(modules, None), page).modules
  {
    modules' := modules;
    var current: Option<nat> := None;
    for j := 0 to |page|
      invariant Outline(modules', current) == FoldElements(Outline(modules, None), page[..j])
    {
      assert page[..j + 1][..j] == page[..j];
      var element := page[j];
      match element.tag {
        case H1 =>
        case H2 =>
          current := Some(|modules'|);
          modules' := modules' + [ModuleEntry(element.text, "", [])];
        case H3 =>
          if current.Some? {
            var m := modules'[current.value];
            modules' := modules'[current.value := m.(submodules := Put(m.submodules, element.text, ""))];
          }
        case P =>
          if current.Some? {
            var m := modules'[current.value];
            if m.description == "" {
              m := m.(description := element.text);
            } else {
              var lastKey := if m.submodules != [] then m.submodules[|m.submodules| - 1].name else "";
              if lastKey != "" {
                var last := m.submodules[|m.submodules| - 1];
                if last.description == "" {
                  m := m.(submodules := Put(m.submodules, lastKey, element.text));
                } else {
                  m := m.(submodules := Put(m.submodules, lastKey, last.description + " " + element.text));
                }
              } else {
                m := m.(description := m.description + " " + element.text);
              }
            }
            modules' := modules'[current.value := m];
          }
      }
    }
    assert page[..|page|] == page;
  }

  /** The clean-up loop of lines 170-174, rewriting each module in place. */
  method NormalizeModules(raw: seq<ModuleEntry>) returns (modules: seq<ModuleEntry>)
    ensures modules == NormalizeAll(raw)
  {
    modules := raw;
    for i := 0 to |modules|
      invariant |modules| == |raw|
      invariant forall k :: 0 <= k < i ==> modules[k] == NormalizeModule(raw[k])
      invariant forall k :: i <= k < |modules| ==> modules[k] == raw[k]
    {
      var mod := modules[i];
      var subs := NormalizeSubmoduleList(mod.submodules);
      modules := modules[i := ModuleEntry(mod.name, Normalize(mod.description), subs)];
    }
  }

  /** The inner loop of line 174, over one module's submodules. */
  method NormalizeSubmoduleList(raw: seq<Submodule>) returns (subs: seq<Submodule>)
    ensures subs == NormalizeSubmodules(raw)
  {
    subs := raw;
    for k := 0 to |subs|
      invariant |subs| == |raw|
      invariant forall a :: 0 <= a < k ==> subs[a] == Submodule(raw[a].name, Normalize(raw[a].description))
      invariant forall a :: k <= a < |subs| ==> subs[a] == raw[a]
    {
      subs := subs[k := Submodule(subs[k].name, Normalize(subs[k].description))];
    }
  }

  /** The filter loop of lines 176-180. */
  method FilterModules(modules: seq<ModuleEntry>) returns (finalModules: seq<ModuleEntry>)
    ensures finalModules == KeepNonEmpty(modules)
  {
    finalModules := [];
    for i := 0 to |modules|
      invariant finalModules == KeepNonEmpty(modules[..i])
    {
      assert modules[..i + 1][..i] == modules[..i];
      if modules[i].description != "" || modules[i].submodules != [] {
        finalModules := finalModules + [modules[i]];
      }
    }
    assert modules[..|modules|] == modules;
  }

  /** infer_modules_and_submodules, as written: the walk, then clean-up, then the filter. */
  method InferModulesAndSubmodules(pages: seq<seq<Element>>) returns (finalModules: seq<ModuleEntry>)
    ensures finalModules == Infer(pages)
  {
    var modules: seq<ModuleEntry> := [];
    for p := 0 to |pages|
      invariant modules == RawModules(pages[..p])
    {
      assert pages[..p + 1][..p] == pages[..p];
      modules := WalkPage(modules, pages[p]);
    }
    assert pages[..|pages|] == pages;
    modules := NormalizeModules(modules);
    finalModules := FilterModules(modules);
  }
}
