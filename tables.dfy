/** The table queries of the dashboard: the normalisation of the formula column
    (app.py:154), the family tables (app.py:199-215), the single-element property
    lookup (app.py:167-169, 186-188) and the model-performance filters
    (app.py:337-338, 347-348). Property and score values are floats and are left
    uninterpreted as the type parameter `V`. */
module Tables {
  import opened Outcomes
  import opened PyStrings
  import opened Families

  /** A row of `properties.csv`. */
  datatype PropertyRow<V> = PropertyRow(formula: string, molecularWeight: V, molarVolume: V, atomicRadius: V)

  /** The three values shown for a selected element. */
  datatype Properties<V> = Properties(molecularWeight: V, molarVolume: V, atomicRadius: V)

  /** A row of `result_selectivity.csv` or `result_PEO.csv`; `kind` is the `type` column. */
  datatype ResultRow<I, V> = ResultRow(id: I, kind: string, value: V)

  function PropertiesOf<V>(row: PropertyRow<V>): Properties<V> {
    Properties(row.molecularWeight, row.molarVolume, row.atomicRadius)
  }

  // ---------------------------------------------------------------------------
  // Boolean-mask selection

  /** `df[mask]`: the rows of `s` that satisfy `p`, in order. */
  function Where<T>(s: seq<T>, p: T -> bool): (r: seq<T>)
    ensures |r| <= |s|
    decreases |s|
  {
    if s == [] then []
    else if p(s[0]) then [s[0]] + Where(s[1..], p)
    else Where(s[1..], p)
  }

  /** Every row kept is a row of `s` that satisfies `p`, and no row is kept more
      often than it occurs in `s`. */
  lemma {:induction false} WhereSound<T>(s: seq<T>, p: T -> bool)
    ensures forall k :: 0 <= k < |Where(s, p)| ==> p(Where(s, p)[k])
    ensures multiset(Where(s, p)) <= multiset(s)
    decreases |s|
  {
    if s != [] {
      WhereSound(s[1..], p);
      assert s == [s[0]] + s[1..];
    }
  }

  /** Every row of `s` that satisfies `p` is kept. */
  lemma {:induction false} WhereComplete<T>(s: seq<T>, p: T -> bool)
    ensures forall i :: 0 <= i < |s| && p(s[i]) ==> s[i] in Where(s, p)
    decreases |s|
  {
    if s != [] {
      WhereComplete(s[1..], p);
      assert forall i :: 1 <= i < |s| ==> s[i] == s[1..][i - 1];
    }
  }

  /** The rows kept are rows of `s`. */
  lemma WhereRowsFromTable<T>(s: seq<T>, p: T -> bool)
    ensures forall k :: 0 <= k < |Where(s, p)| ==> Where(s, p)[k] in s && p(Where(s, p)[k])
  {
    var r := Where(s, p);
    WhereSound(s, p);
    forall k | 0 <= k < |r| ensures r[k] in s {
      assert r[k] in multiset(r);
    }
  }

  /** A mask that holds of no row selects nothing. */
  lemma {:induction false} WhereNone<T>(s: seq<T>, p: T -> bool)
    requires forall i :: 0 <= i < |s| ==> !p(s[i])
    ensures Where(s, p) == []
    decreases |s|
  {
    if s != [] {
      assert forall i :: 1 <= i < |s| ==> s[i] == s[1..][i - 1];
      WhereNone(s[1..], p);
    }
  }

  /** Selection keeps table order: selecting from two consecutive parts of a
      table is selecting from each part and concatenating. */
  lemma {:induction false} WhereAppend<T>(a: seq<T>, b: seq<T>, p: T -> bool)
    ensures Where(a + b, p) == Where(a, p) + Where(b, p)
    decreases |a|
  {
    if a == [] {
      assert a + b == b;
    } else {
      assert (a + b)[0] == a[0] && (a + b)[1..] == a[1..] + b;
      WhereAppend(a[1..], b, p);
    }
  }

  /** Selection depends only on the values of the mask on the table's rows. */
  lemma {:induction false} WhereCongruent<T>(s: seq<T>, p: T -> bool, q: T -> bool)
    requires forall x :: x in s ==> p(x) == q(x)
    ensures Where(s, p) == Where(s, q)
  {
    if s != [] {
      WhereCongruent(s[1..], p, q);
    }
  }

  /** The first selected row is the first row of the table that satisfies `p`. */
  lemma {:induction false} WhereFirst<T>(s: seq<T>, p: T -> bool, i: nat)
    requires i < |s| && p(s[i])
    requires forall j :: 0 <= j < i ==> !p(s[j])
    ensures |Where(s, p)| > 0 && Where(s, p)[0] == s[i]
  {
    if i > 0 {
      WhereFirst(s[1..], p, i - 1);
    }
  }

  // ---------------------------------------------------------------------------
  // Loading: `property_df.MolecularFormula.apply(lambda x: x.strip('-'))`

  /** Every formula stripped of leading and trailing `-`; every other column and
      the order of the rows unchanged. */
  function NormaliseFormulas<V>(t: seq<PropertyRow<V>>): (r: seq<PropertyRow<V>>)
    ensures |r| == |t|
    ensures forall i :: 0 <= i < |t| ==>
      && IsStripOf(t[i].formula, '-', r[i].formula)
      && r[i].(formula := t[i].formula) == t[i]
  {
    var r := seq(|t|, i requires 0 <= i < |t| => t[i].(formula := Strip(t[i].formula, '-')));
    assert forall i :: 0 <= i < |t| ==> IsStripOf(t[i].formula, '-', r[i].formula) by {
      forall i | 0 <= i < |t| ensures IsStripOf(t[i].formula, '-', r[i].formula) {
        StripMeetsReference(t[i].formula, '-');
      }
    }
    r
  }

  /** Normalising an already normalised table changes nothing. */
  lemma NormaliseIdempotent<V>(t: seq<PropertyRow<V>>)
    ensures NormaliseFormulas(NormaliseFormulas(t)) == NormaliseFormulas(t)
  {
    var n := NormaliseFormulas(t);
    forall i | 0 <= i < |t| ensures Strip(n[i].formula, '-') == n[i].formula {
      StripMeetsReference(t[i].formula, '-');
      StripUnique(t[i].formula, '-', n[i].formula);
      StripIdempotent(t[i].formula, '-');
    }
  }

  // ---------------------------------------------------------------------------
  // Family tables: `property_df[property_df.MolecularFormula.isin(cleaned)]`

  /** The mask `property_df.MolecularFormula.isin(cleaned)`. */
  function FormulaIn<V>(cleaned: seq<string>): PropertyRow<V> -> bool {
    (row: PropertyRow<V>) => row.formula in cleaned
  }

  /** The rows whose formula is one of `cleaned`, in table order. */
  function FamilyFilter<V>(t: seq<PropertyRow<V>>, cleaned: seq<string>): (r: seq<PropertyRow<V>>)
    ensures forall k :: 0 <= k < |r| ==> r[k] in t && r[k].formula in cleaned
    ensures forall i :: 0 <= i < |t| && t[i].formula in cleaned ==> t[i] in r
    ensures multiset(r) <= multiset(t)
  {
    WhereRowsFromTable(t, FormulaIn(cleaned));
    WhereComplete(t, FormulaIn(cleaned));
    WhereSound(t, FormulaIn(cleaned));
    Where(t, FormulaIn(cleaned))
  }

  /** `alkali_df`, `alkali_earth_df`, ... : the family table of `f`, which holds
      the rows of `t` whose formula, written with a leading `_`, is in the
      family's declared list. */
  function FamilyTable<V>(t: seq<PropertyRow<V>>, f: Family): (r: seq<PropertyRow<V>>)
    ensures forall k :: 0 <= k < |r| ==> r[k] in t && "_" + r[k].formula in Members(f)
    ensures forall i :: 0 <= i < |t| && "_" + t[i].formula in Members(f) ==> t[i] in r
  {
    var r := FamilyFilter(t, CleanedMembers(f));
    assert forall k :: 0 <= k < |r| ==> "_" + r[k].formula in Members(f) by {
      forall k | 0 <= k < |r| ensures "_" + r[k].formula in Members(f) {
        CleanedMemberOrigin(f, r[k].formula);
      }
    }
    assert forall i :: 0 <= i < |t| && "_" + t[i].formula in Members(f) ==> t[i] in r by {
      forall i | 0 <= i < |t| && "_" + t[i].formula in Members(f) ensures t[i] in r {
        CleanedMemberOrigin(f, t[i].formula);
      }
    }
    r
  }

  /** The family filter keeps table order. */
  lemma FamilyFilterAppend<V>(a: seq<PropertyRow<V>>, b: seq<PropertyRow<V>>, cleaned: seq<string>)
    ensures FamilyFilter(a + b, cleaned) == FamilyFilter(a, cleaned) + FamilyFilter(b, cleaned)
  {
    WhereAppend(a, b, FormulaIn(cleaned));
  }

  /** The family filter depends only on which formulas are listed, not on their
      order or repetition. */
  lemma FamilyFilterSetOnly<V>(t: seq<PropertyRow<V>>, c1: seq<string>, c2: seq<string>)
    requires forall x :: x in c1 <==> x in c2
    ensures FamilyFilter(t, c1) == FamilyFilter(t, c2)
  {
    WhereCongruent(t, FormulaIn(c1), FormulaIn(c2));
  }

  /** The alkali list names `_Cs` twice (app.py:101); the alkali table is the
      same as with `Cs` named once. */
  lemma AlkaliDuplicateHarmless<V>(t: seq<PropertyRow<V>>)
    ensures FamilyTable(t, Alkali) == FamilyFilter(t, ["K", "Li", "Cs", "Na", "Rb"])
  {
    CleanedMembersValue(Alkali);
    FamilyFilterSetOnly(t, CleanedMembers(Alkali), ["K", "Li", "Cs", "Na", "Rb"]);
  }

  /** A row is in the table of `f` exactly when the classifier puts its formula,
      written as a feature name with a leading `_`, into `f`. */
  lemma FamilyTableAgreesWithClassifier<V>(t: seq<PropertyRow<V>>, f: Family, row: PropertyRow<V>)
    ensures row in FamilyTable(t, f) <==> row in t && Classify("_" + row.formula) == Some(f)
  {
    CleanedMemberOrigin(f, row.formula);
    var c := Classify("_" + row.formula);
    if c.Some? && c.value != f {
      if "_" + row.formula in Members(f) {
        MembersDisjoint(f, c.value, "_" + row.formula);
      }
    }
  }

  /** No row appears in two family tables. */
  lemma FamilyTablesDisjoint<V>(t: seq<PropertyRow<V>>, f: Family, g: Family, row: PropertyRow<V>)
    requires f != g && row in FamilyTable(t, f)
    ensures row !in FamilyTable(t, g)
  {
    CleanedMembersDisjoint(f, g, row.formula);
  }

  // ---------------------------------------------------------------------------
  // Single-element lookup:
  // `property_df[property_df.MolecularFormula == feature.strip('_')].Column.tolist()[0]`

  /** The mask `property_df.MolecularFormula == key`. */
  function FormulaIs<V>(key: string): PropertyRow<V> -> bool {
    (row: PropertyRow<V>) => row.formula == key
  }

  /** `property_df[property_df.MolecularFormula == key]`: the rows of `t` whose
      formula is `key`. */
  function SelectFormula<V>(t: seq<PropertyRow<V>>, key: string): (r: seq<PropertyRow<V>>)
    ensures forall k :: 0 <= k < |r| ==> r[k] in t && r[k].formula == key
    ensures forall i :: 0 <= i < |t| && t[i].formula == key ==> t[i] in r
  {
    WhereRowsFromTable(t, FormulaIs(key));
    WhereComplete(t, FormulaIs(key));
    Where(t, FormulaIs(key))
  }

  /** `.Column.tolist()` */
  function Column<V>(rows: seq<PropertyRow<V>>, pick: PropertyRow<V> -> V): seq<V> {
    seq(|rows|, i requires 0 <= i < |rows| => pick(rows[i]))
  }

  /** `.tolist()[0]`: the first entry, or `IndexError` on an empty list. */
  function FirstOrIndexError<X>(xs: seq<X>): (r: Result<X>)
    ensures r.Err? <==> |xs| == 0
    ensures r.Err? ==> r.error == IndexError
    ensures r.Ok? ==> r.value == xs[0]
  {
    if |xs| == 0 then Err(IndexError) else Ok(xs[0])
  }

  /** The three values of the first row whose formula is the feature name with
      `_` stripped; `IndexError` when no row has that formula. The source makes
      one selection per column; here the three columns are read from a single
      selection, which is the same rows each time. */
  function LookupProperties<V>(t: seq<PropertyRow<V>>, feature: string): (r: Result<Properties<V>>)
    ensures r.Err? <==> forall i :: 0 <= i < |t| ==> t[i].formula != Strip(feature, '_')
    ensures r.Err? ==> r.error == IndexError
    ensures r.Ok? ==> exists i :: (
      && 0 <= i < |t|
      && t[i].formula == Strip(feature, '_')
      && (forall j :: 0 <= j < i ==> t[j].formula != Strip(feature, '_'))
      && r.value == PropertiesOf(t[i]))
  {
    var key := Strip(feature, '_');
    var sel := SelectFormula(t, key);
    SelectFirstRow(t, key);
    var molecularWeights := Column(sel, (row: PropertyRow<V>) => row.molecularWeight);
    var molarVolumes := Column(sel, (row: PropertyRow<V>) => row.molarVolume);
    var atomicRadii := Column(sel, (row: PropertyRow<V>) => row.atomicRadius);
    match (FirstOrIndexError(molecularWeights), FirstOrIndexError(molarVolumes), FirstOrIndexError(atomicRadii))
    case (Ok(molecularWeight), Ok(molarVolume), Ok(atomicRadius)) =>
      Ok(Properties(molecularWeight, molarVolume, atomicRadius))
    case _ => Err(IndexError)
  }

  /** When a row is selected, the first selected row is the first row of the
      table whose formula is `key`. */
  lemma SelectFirstRow<V>(t: seq<PropertyRow<V>>, key: string)
    ensures |SelectFormula(t, key)| == 0 <==> forall i :: 0 <= i < |t| ==> t[i].formula != key
    ensures |SelectFormula(t, key)| > 0 ==> exists i :: (
      && 0 <= i < |t| && t[i].formula == key
      && (forall j :: 0 <= j < i ==> t[j].formula != key)
      && SelectFormula(t, key)[0] == t[i])
  {
    var sel := SelectFormula(t, key);
    WhereComplete(t, FormulaIs(key));
    WhereRowsFromTable(t, FormulaIs(key));
    if i :| 0 <= i < |t| && t[i].formula == key {
      assert t[i] in sel;
    }
    if |sel| > 0 {
      var b :| 0 <= b < |t| && t[b] == sel[0];
      var i := FirstIndex(t, key, b);
      WhereFirst(t, FormulaIs(key), i);
    }
  }

  /** The first position in `t` whose formula is `key`, given one such position. */
  lemma {:induction false} FirstIndex<V>(t: seq<PropertyRow<V>>, key: string, bound: nat) returns (i: nat)
    requires bound < |t| && t[bound].formula == key
    ensures i <= bound && t[i].formula == key
    ensures forall j :: 0 <= j < i ==> t[j].formula != key
    decreases bound
  {
    if j :| 0 <= j < bound && t[j].formula == key {
      i := FirstIndex(t, key, j);
    } else {
      i := bound;
    }
  }

  /** The row the lookup reads for a listed feature is a row of that feature's
      family table: the compared elements and the family tables agree. */
  lemma LookupRowInFamilyTable<V>(t: seq<PropertyRow<V>>, feature: string, f: Family)
    requires feature in Members(f) && LookupProperties(t, feature).Ok?
    ensures exists row :: row in FamilyTable(t, f) && PropertiesOf(row) == LookupProperties(t, feature).value
  {
    var key := Strip(feature, '_');
    var i :| 0 <= i < |t| && t[i].formula == key && LookupProperties(t, feature).value == PropertiesOf(t[i]);
    MemberIsUnderscored(f, feature);
    CleanedMemberOrigin(f, key);
    assert t[i] in FamilyTable(t, f);
  }

  /** A feature whose formula is the table's first row reads that row. */
  lemma LookupFirstRow<V>(t: seq<PropertyRow<V>>, feature: string)
    requires |t| > 0 && t[0].formula == Strip(feature, '_')
    ensures LookupProperties(t, feature) == Ok(PropertiesOf(t[0]))
  {
    var r := LookupProperties(t, feature);
    var i :| 0 <= i < |t| && t[i].formula == Strip(feature, '_')
             && (forall j :: 0 <= j < i ==> t[j].formula != Strip(feature, '_'))
             && r.value == PropertiesOf(t[i]);
    assert i == 0;
  }

  /** A feature name is looked up without its `_`; an element missing from the
      table makes the lookup raise `IndexError`. */
  lemma LookupExample(k: PropertyRow<real>, na: PropertyRow<real>)
    requires k.formula == "K" && na.formula == "Na"
    ensures LookupProperties([k, na], "_K") == Ok(PropertiesOf(k))
    ensures LookupProperties([k, na], "_Cs") == Err(IndexError)
  {
    StripUnderscore("K");
    assert "_" + "K" == "_K";
    LookupFirstRow([k, na], "_K");
    StripUnderscore("Cs");
    assert "_" + "Cs" == "_Cs";
    assert Strip("_Cs", '_') == "Cs";
  }


  // ---------------------------------------------------------------------------
  // Model performance:
  // `res[(res.id.isin(selected_ids)) & (res.type == kind)].value.tolist()`

  /** The mask `(res.id.isin(selected_ids)) & (res.type == kind)`. */
  function IsSelectedResult<I(==), V>(selectedIds: seq<I>, kind: string): ResultRow<I, V> -> bool {
    (row: ResultRow<I, V>) => row.id in selectedIds && row.kind == kind
  }

  /** The result rows with a selected id and the given `type`, in table order. */
  function SelectResults<I(==), V>(t: seq<ResultRow<I, V>>, selectedIds: seq<I>, kind: string): (r: seq<ResultRow<I, V>>)
    ensures forall k :: 0 <= k < |r| ==> r[k] in t && r[k].id in selectedIds && r[k].kind == kind
    ensures forall i :: 0 <= i < |t| && t[i].id in selectedIds && t[i].kind == kind ==> t[i] in r
    ensures multiset(r) <= multiset(t)
  {
    WhereRowsFromTable(t, IsSelectedResult(selectedIds, kind));
    WhereComplete(t, IsSelectedResult(selectedIds, kind));
    WhereSound(t, IsSelectedResult(selectedIds, kind));
    Where(t, IsSelectedResult(selectedIds, kind))
  }

  /** `.value.tolist()` */
  function Values<I, V>(rows: seq<ResultRow<I, V>>): seq<V> {
    seq(|rows|, k requires 0 <= k < |rows| => rows[k].value)
  }

  lemma ValuesAppend<I, V>(x: seq<ResultRow<I, V>>, y: seq<ResultRow<I, V>>)
    ensures Values(x + y) == Values(x) + Values(y)
  {
    forall k | 0 <= k < |x| + |y| ensures Values(x + y)[k] == (Values(x) + Values(y))[k] {
      if k < |x| { assert (x + y)[k] == x[k]; } else { assert (x + y)[k] == y[k - |x|]; }
    }
  }

  /** `v` is the value of a row of `t` with a selected id and the given `type`. */
  ghost predicate IsSelectedValue<I, V>(t: seq<ResultRow<I, V>>, selectedIds: seq<I>, kind: string, v: V) {
    exists i :: 0 <= i < |t| && t[i].id in selectedIds && t[i].kind == kind && t[i].value == v
  }

  /** The `value` column of the selected rows: every value shown is the value of
      a table row with a selected id and the given `type`, and the value of every
      such row is shown. */
  function ResultValues<I(==), V>(t: seq<ResultRow<I, V>>, selectedIds: seq<I>, kind: string): (r: seq<V>)
    ensures |r| == |SelectResults(t, selectedIds, kind)|
    ensures forall k :: 0 <= k < |r| ==> IsSelectedValue(t, selectedIds, kind, r[k])
    ensures forall i :: 0 <= i < |t| && t[i].id in selectedIds && t[i].kind == kind ==> t[i].value in r
  {
    var sel := SelectResults(t, selectedIds, kind);
    var r := Values(sel);
    assert forall k :: 0 <= k < |r| ==> IsSelectedValue(t, selectedIds, kind, r[k]) by {
      forall k | 0 <= k < |r| ensures IsSelectedValue(t, selectedIds, kind, r[k]) {
        var i :| 0 <= i < |t| && t[i] == sel[k];
      }
    }
    assert forall i :: 0 <= i < |t| && t[i].id in selectedIds && t[i].kind == kind ==> t[i].value in r by {
      forall i | 0 <= i < |t| && t[i].id in selectedIds && t[i].kind == kind ensures t[i].value in r {
        var k :| 0 <= k < |sel| && sel[k] == t[i];
        assert r[k] == t[i].value;
      }
    }
    r
  }

  /** The "Previous method" column: the `old` values of the selected ids. */
  function PreviousMethod<I(==), V>(t: seq<ResultRow<I, V>>, selectedIds: seq<I>): (r: seq<V>)
    ensures |r| == |SelectResults(t, selectedIds, "old")|
    ensures forall k :: 0 <= k < |r| ==> IsSelectedValue(t, selectedIds, "old", r[k])
    ensures forall i :: 0 <= i < |t| && t[i].id in selectedIds && t[i].kind == "old" ==> t[i].value in r
  {
    ResultValues(t, selectedIds, "old")
  }

  /** The "Proposed method" column: the `new` values of the selected ids. */
  function ProposedMethod<I(==), V>(t: seq<ResultRow<I, V>>, selectedIds: seq<I>): (r: seq<V>)
    ensures |r| == |SelectResults(t, selectedIds, "new")|
    ensures forall k :: 0 <= k < |r| ==> IsSelectedValue(t, selectedIds, "new", r[k])
    ensures forall i :: 0 <= i < |t| && t[i].id in selectedIds && t[i].kind == "new" ==> t[i].value in r
  {
    ResultValues(t, selectedIds, "new")
  }

  /** The result filter keeps table order. */
  lemma ResultValuesAppend<I, V>(a: seq<ResultRow<I, V>>, b: seq<ResultRow<I, V>>, selectedIds: seq<I>, kind: string)
    ensures ResultValues(a + b, selectedIds, kind) == ResultValues(a, selectedIds, kind) + ResultValues(b, selectedIds, kind)
  {
    WhereAppend(a, b, IsSelectedResult(selectedIds, kind));
    ValuesAppend(SelectResults(a, selectedIds, kind), SelectResults(b, selectedIds, kind));
  }

  /** Only which ids are selected matters, not their order or repetition. */
  lemma ResultValuesSetOnly<I, V>(t: seq<ResultRow<I, V>>, ids1: seq<I>, ids2: seq<I>, kind: string)
    requires forall x :: x in ids1 <==> x in ids2
    ensures ResultValues(t, ids1, kind) == ResultValues(t, ids2, kind)
  {
    WhereCongruent(t, IsSelectedResult(ids1, kind), IsSelectedResult(ids2, kind));
  }

  /** No id selected (the multiselect's initial state): both columns are empty. */
  lemma NothingSelectedNothingShown<I, V>(t: seq<ResultRow<I, V>>)
    ensures PreviousMethod(t, []) == [] && ProposedMethod(t, []) == []
  {
    WhereNone(t, IsSelectedResult([], "old"));
    WhereNone(t, IsSelectedResult([], "new"));
  }
}
