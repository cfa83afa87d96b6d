/** The element families of the dashboard (app.py:99-150): six fixed symbol
    lists, the ordered `if/elif` classifier `get_compound_type`, and the
    cleaned member lists used by the family tables (app.py:199-214). */
module Families {
  import opened Outcomes
  import opened PyStrings

  datatype Family = Alkali | AlkaliEarth | TransitionMetal | Lanthanide | Halogen | Triel

  /** The symbols offered by the two element select boxes (app.py:99-100). */
  const SingleElementCol: seq<string> :=
    ["_K", "_Li", "_Cs", "_Na", "_Rb", "_Cl", "_F", "_Ca", "_Sr", "_Ba",
     "_Br", "_Mn", "_Fe", "_Yb", "_Lu", "_Al", "_Mg", "_La", "_Cr"]

  /** The family lists as declared (app.py:101-106); `_Cs` is listed twice. */
  const AlkaliElement: seq<string> := ["_K", "_Li", "_Cs", "_Na", "_Rb", "_Cs"]
  const AlkaliEarthElement: seq<string> := ["_Ca", "_Sr", "_Ba", "_Mg"]
  const TransitionMetalElement: seq<string> := ["_Fe", "_Cr", "_Mn"]
  const TrielsElement: seq<string> := ["_Al"]
  const HalogensElement: seq<string> := ["_Cl", "_F", "_Br"]
  const LanthanidesElement: seq<string> := ["_Yb", "_Lu", "_La"]

  /** The declared list of a family; every listed symbol is one the select
      boxes offer. */
  function Members(f: Family): (r: seq<string>)
    ensures |r| > 0
    ensures forall x :: x in r ==> x in SingleElementCol
  {
    match f
    case Alkali => AlkaliElement
    case AlkaliEarth => AlkaliEarthElement
    case TransitionMetal => TransitionMetalElement
    case Lanthanide => LanthanidesElement
    case Halogen => HalogensElement
    case Triel => TrielsElement
  }

  /** The order in which `get_compound_type` tests the lists: lanthanides come
      before halogens, unlike the order of declaration. */
  const BranchOrder: seq<Family> := [Alkali, AlkaliEarth, TransitionMetal, Lanthanide, Halogen, Triel]

  /** The position of a family's branch in the `if/elif` chain. */
  function BranchIndex(f: Family): (n: nat)
    ensures n < |BranchOrder| && BranchOrder[n] == f
  {
    match f
    case Alkali => 0
    case AlkaliEarth => 1
    case TransitionMetal => 2
    case Lanthanide => 3
    case Halogen => 4
    case Triel => 5
  }

  /** The branch of `get_compound_type` that assigns `text`, if any: the first
      family in branch order whose list holds the symbol. */
  function Classify(element: string): (r: Option<Family>)
    ensures r.Some? ==> element in Members(r.value)
    ensures r.Some? ==> forall g :: BranchIndex(g) < BranchIndex(r.value) ==> element !in Members(g)
    ensures r.None? <==> forall f :: element !in Members(f)
  {
    if element in AlkaliElement then Some(Alkali)
    else if element in AlkaliEarthElement then Some(AlkaliEarth)
    else if element in TransitionMetalElement then Some(TransitionMetal)
    else if element in LanthanidesElement then Some(Lanthanide)
    else if element in HalogensElement then Some(Halogen)
    else if element in TrielsElement then Some(Triel)
    else None
  }

  /** The text each branch assigns, reduced to the heading of its paragraph. */
  function Description(f: Family): (r: string)
    ensures |r| > 0
  {
    match f
    case Alkali => "Alkali metals"
    case AlkaliEarth => "Alkali earth metals"
    case TransitionMetal => "Transition metal element"
    case Lanthanide => "Lanthanides element"
    case Halogen => "Halogens element"
    case Triel => "Triels element"
  }

  /** Each branch assigns its own text, so the text names the family. */
  lemma DescriptionsDistinct(f: Family, g: Family)
    requires f != g
    ensures Description(f) != Description(g)
  {
  }

  /** The six lists are pairwise disjoint. */
  lemma MembersDisjoint(f: Family, g: Family, element: string)
    requires f != g && element in Members(f)
    ensures element !in Members(g)
  {
    var i :| 0 <= i < |Members(f)| && Members(f)[i] == element;
    forall j | 0 <= j < |Members(g)| ensures Members(g)[j] != Members(f)[i] {
    }
  }

  /** `get_compound_type(element)`: the description of the family that holds the
      symbol, or the `UnboundLocalError` that `return text` raises when no branch
      assigned `text`. */
  function GetCompoundType(element: string): (r: Result<string>)
    ensures r.Err? <==> forall f :: element !in Members(f)
    ensures r.Err? ==> r.error == UnboundLocalError
    ensures forall f :: element in Members(f) ==> r == Ok(Description(f))
  {
    match Classify(element)
    case None => Err(UnboundLocalError)
    case Some(f) =>
      assert forall g :: element in Members(g) ==> g == f by {
        forall g | element in Members(g) ensures g == f {
          if g != f { MembersDisjoint(f, g, element); }
        }
      }
      Ok(Description(f))
  }

  /** First-match classification over an arbitrary order of the branches. */
  function FirstMatch(order: seq<Family>, element: string): (r: Option<Family>)
    ensures r.Some? ==> r.value in order && element in Members(r.value)
  {
    if order == [] then None
    else if element in Members(order[0]) then Some(order[0])
    else FirstMatch(order[1..], element)
  }

  /** Whatever the order of the branches, a listed symbol is classified into its
      own family as soon as that family is tested at all. */
  lemma {:induction false} FirstMatchFindsOwner(order: seq<Family>, element: string, f: Family)
    requires element in Members(f)
    ensures FirstMatch(order, element) == if f in order then Some(f) else None
  {
    if order != [] {
      if order[0] != f {
        MembersDisjoint(f, order[0], element);
        FirstMatchFindsOwner(order[1..], element, f);
        assert f in order <==> f in order[1..];
      }
    }
  }

  /** An unlisted symbol matches in no order. */
  lemma {:induction false} FirstMatchUnlisted(order: seq<Family>, element: string)
    requires forall f :: element !in Members(f)
    ensures FirstMatch(order, element) == None
  {
    if order != [] {
      FirstMatchUnlisted(order[1..], element);
    }
  }

  /** Because the lists are disjoint, testing the families in any order that
      covers all six gives the same outcome as the source's order. */
  lemma BranchOrderIrrelevant(order: seq<Family>, element: string)
    requires forall f :: f in order
    ensures FirstMatch(order, element) == Classify(element)
  {
    match Classify(element)
    case Some(f) => FirstMatchFindsOwner(order, element, f);
    case None => FirstMatchUnlisted(order, element);
  }

  /** The selectable symbols are exactly the members of the six lists: every
      selectable symbol is in some list, and every listed symbol is selectable. */
  lemma SelectableAreMembers(element: string)
    ensures element in SingleElementCol <==> exists f :: element in Members(f)
  {
    if element in SingleElementCol {
      var f :| f in BranchOrder && element in Members(f);
    }
  }

  /** `get_compound_type` succeeds exactly on the selectable symbols, so the
      select boxes (app.py:161-165, 180-183) never make it raise. */
  lemma SelectableNeverFails(element: string)
    ensures GetCompoundType(element).Ok? <==> element in SingleElementCol
  {
    SelectableAreMembers(element);
  }

  /** `[elem.strip(c) for elem in xs]`: one entry per symbol, in order, each
      the stripped form of the symbol at the same position. */
  function StripAll(xs: seq<string>, c: char): (r: seq<string>)
    ensures |r| == |xs|
    ensures forall i :: 0 <= i < |xs| ==> IsStripOf(xs[i], c, r[i])
  {
    StripAllMeetsReference(xs, c);
    StripEach(xs, c)
  }

  /** The comprehension itself, element by element. */
  function StripEach(xs: seq<string>, c: char): seq<string> {
    seq(|xs|, i requires 0 <= i < |xs| => Strip(xs[i], c))
  }

  /** Each entry of the comprehension meets the reference definition of strip. */
  lemma StripAllMeetsReference(xs: seq<string>, c: char)
    ensures forall i :: 0 <= i < |xs| ==> IsStripOf(xs[i], c, StripEach(xs, c)[i])
  {
    forall i | 0 <= i < |xs| ensures IsStripOf(xs[i], c, StripEach(xs, c)[i]) {
      StripMeetsReference(xs[i], c);
    }
  }

  /** The cleaned member lists of app.py:199-214: four by a comprehension that
      strips `_`, two written out by hand. */
  function CleanedMembers(f: Family): (r: seq<string>)
    ensures |r| == |Members(f)|
    ensures forall i :: 0 <= i < |r| ==> "_" + r[i] == Members(f)[i]
  {
    match f
    case Triel => ["Al"]
    case Lanthanide => ["Yb", "Lu", "La"]
    case _ =>
      var r := StripAll(Members(f), '_');
      assert forall i :: 0 <= i < |r| ==> "_" + r[i] == Members(f)[i] by {
        forall i | 0 <= i < |r| ensures "_" + r[i] == Members(f)[i] {
          MemberIsUnderscored(f, Members(f)[i]);
        }
      }
      r
  }

  /** A symbol written with one leading `_` strips to the bare symbol. */
  lemma StripUnderscore(x: string)
    requires x != [] && x[0] != '_' && x[|x| - 1] != '_'
    ensures Strip("_" + x, '_') == x
  {
    var s := "_" + x;
    assert s[1..1 + |x|] == x;
    assert s[..1] == "_";
    assert s[1 + |x|..] == [];
    StripKeepsInfix(s, '_', x, 1);
  }

  /** Stripping `_` from symbols written with one leading `_` gives the bare symbols. */
  lemma StripAllUnderscored(xs: seq<string>, bare: seq<string>)
    requires |xs| == |bare|
    requires forall i :: 0 <= i < |xs| ==>
      && xs[i] == "_" + bare[i]
      && bare[i] != [] && bare[i][0] != '_' && bare[i][|bare[i]| - 1] != '_'
    ensures StripAll(xs, '_') == bare
  {
    forall i | 0 <= i < |xs| ensures Strip(xs[i], '_') == bare[i] {
      StripUnderscore(bare[i]);
    }
  }

  /** The cleaned lists, written out. */
  lemma CleanedMembersValue(f: Family)
    ensures CleanedMembers(f) == match f
      case Alkali => ["K", "Li", "Cs", "Na", "Rb", "Cs"]
      case AlkaliEarth => ["Ca", "Sr", "Ba", "Mg"]
      case TransitionMetal => ["Fe", "Cr", "Mn"]
      case Lanthanide => ["Yb", "Lu", "La"]
      case Halogen => ["Cl", "F", "Br"]
      case Triel => ["Al"]
  {
    match f
    case Alkali => StripAllUnderscored(AlkaliElement, ["K", "Li", "Cs", "Na", "Rb", "Cs"]);
    case AlkaliEarth => StripAllUnderscored(AlkaliEarthElement, ["Ca", "Sr", "Ba", "Mg"]);
    case TransitionMetal => StripAllUnderscored(TransitionMetalElement, ["Fe", "Cr", "Mn"]);
    case Halogen => StripAllUnderscored(HalogensElement, ["Cl", "F", "Br"]);
    case _ =>
  }

  /** Every cleaned list is the declared list with `_` stripped from each symbol;
      in particular the hand-written `['Al']` and `['Yb', 'Lu', 'La']` of
      app.py:208 and app.py:214 agree with it. */
  lemma CleanedMembersAreStripped(f: Family)
    ensures CleanedMembers(f) == StripAll(Members(f), '_')
  {
    match f
    case Triel => StripAllUnderscored(TrielsElement, ["Al"]);
    case Lanthanide => StripAllUnderscored(LanthanidesElement, ["Yb", "Lu", "La"]);
    case _ =>
  }

  /** Every listed symbol is `_` followed by a bare symbol. */
  lemma MemberIsUnderscored(f: Family, m: string)
    requires m in Members(f)
    ensures m == "_" + Strip(m, '_')
  {
    var x := m[1..];
    assert m == "_" + x;
    StripUnderscore(x);
  }

  /** A formula is in the cleaned list of `f` exactly when `_` followed by it is
      in `f`'s declared list. */
  lemma CleanedMemberOrigin(f: Family, formula: string)
    ensures formula in CleanedMembers(f) <==> "_" + formula in Members(f)
  {
    CleanedMembersAreStripped(f);
    var ms := Members(f);
    if formula in CleanedMembers(f) {
      var k :| 0 <= k < |ms| && formula == StripAll(ms, '_')[k];
      MemberIsUnderscored(f, ms[k]);
    }
    if "_" + formula in ms {
      var k :| 0 <= k < |ms| && ms[k] == "_" + formula;
      MemberIsUnderscored(f, ms[k]);
      assert ("_" + formula)[1..] == formula;
      assert ("_" + Strip(ms[k], '_'))[1..] == Strip(ms[k], '_');
      assert StripAll(ms, '_')[k] == formula;
    }
  }

  /** The cleaned lists are pairwise disjoint, so no table row belongs to two
      family tables. */
  lemma CleanedMembersDisjoint(f: Family, g: Family, formula: string)
    requires f != g && formula in CleanedMembers(f)
    ensures formula !in CleanedMembers(g)
  {
    CleanedMemberOrigin(f, formula);
    if formula in CleanedMembers(g) {
      CleanedMemberOrigin(g, formula);
      MembersDisjoint(f, g, "_" + formula);
    }
  }
}
