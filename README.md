# Catalyst feature dashboard: element families and table queries

This project models the decision logic of a single-page dashboard about
catalyst dopants. The dashboard shows two chosen elements side by side, and
groups the rows of an element property table into chemical families. It
shows little else that is computed.

The modelled parts are:

- **Symbol normalisation.** Python's `str.strip(c)` for one character is
  `PyStrings.Strip`. It is checked against an independent reference
  definition, `IsStripOf`: what remains is an infix of the input, only `c`
  was cut from either end, and the remainder neither starts nor ends with `c`.
- **Element families.** The six fixed symbol lists and the selectable
  symbols. `get_compound_type` is modelled as `Families.Classify`, the
  `if/elif` chain in its own branch order: alkali, alkali earth, transition
  metal, lanthanide, halogen, triel. `Families.GetCompoundType` adds the
  `UnboundLocalError` that `return text` raises when no branch assigned
  `text`. The cleaned member lists come from a list comprehension for four
  families and are written out by hand for the other two.
- **Table queries.** The property table and the two result tables are
  sequences of rows. The floating-point values are the uninterpreted type
  parameter `V`, and the result ids are a type parameter `I`. A boolean-mask
  selection `df[mask]` is `Tables.Where`. On top of it sit:
  - the load-time normalisation of the formula column (`strip('-')`);
  - the `isin` family tables;
  - the first-row property lookup, where `.tolist()[0]` raises `IndexError`
    when no row matches;
  - the id/type filters of the model-performance tables.

Modules: `Outcomes` (option, result, the two Python exceptions), `PyStrings`,
`Families`, `Tables`.

Facts about app.py that the model states:

- A symbol in no family list makes `get_compound_type` raise
  `UnboundLocalError` at `return text` (app.py:150). `GetCompoundType` returns
  `Err(UnboundLocalError)` exactly then.
- The single-element lookup (app.py:167-169) strips `_` from the feature name
  and compares it with the normalised formulas. It raises `IndexError` unless
  some row's normalised formula equals the stripped name. A feature that strips
  to the empty string is no exception: it reads a row whose formula is empty
  after `strip('-')` (a formula such as `-`), and raises `IndexError` only when
  there is none.
- The property table may hold a formula more than once; the lookup then reads
  the first matching row.
- The six family lists are pairwise disjoint (`MembersDisjoint`), and their
  union is the list of selectable symbols (`SelectableAreMembers`).

## Model

| member | source | states |
|---|---|---|
| `PyStrings.Strip` | app.py:167 | the stripped string is no longer than the input and neither starts nor ends with the stripped character |
| `PyStrings.StripMeetsReference` | app.py:199 | `strip` keeps an infix of the input; everything cut from the front and from the back is the stripped character |
| `PyStrings.StripUnique` | app.py:199 | any string meeting the reference definition of stripping is exactly `strip`'s result, so `strip` removes the leading and trailing runs and nothing else |
| `PyStrings.StripIdempotent` | app.py:199 | applying `strip(c)` twice gives the same result as applying it once |
| `PyStrings.StripNoEdgeIsIdentity` | app.py:154 | a string that neither starts nor ends with `c` is unchanged by `strip(c)` |
| `Families.Members` | app.py:101-106 | each declared family list is non-empty and holds only symbols the select boxes offer |
| `Families.BranchIndex` | app.py:110-149 | each family has one position in the `if/elif` chain, and the chain's order lists that family at that position |
| `Families.Classify` | app.py:109-149 | the chosen family's list holds the symbol, and no family tested earlier holds it; there is no result exactly when no list holds the symbol |
| `Families.GetCompoundType` | app.py:109-150 | returns the description of the family whose list holds the symbol; raises `UnboundLocalError` exactly when no list holds it |
| `Families.Description` | app.py:111-149 | each branch assigns a non-empty text |
| `Families.DescriptionsDistinct` | app.py:111-149 | two different families are given different texts, so the text returned names the family |
| `Families.MembersDisjoint` | app.py:101-106 | a symbol in one family list is in no other family list |
| `Families.FirstMatch` | app.py:110-149 | first-match classification over any order of the branches: a result is a tested family whose list holds the symbol |
| `Families.FirstMatchFindsOwner` | app.py:110-149 | in any branch order, a listed symbol is classified into its own family if that family is tested, and into none otherwise |
| `Families.FirstMatchUnlisted` | app.py:110-150 | in any branch order, a symbol in no list matches no branch |
| `Families.BranchOrderIrrelevant` | app.py:110-149 | every branch order that tests all six families classifies every symbol as the source's order does |
| `Families.SelectableAreMembers` | app.py:99-106 | a symbol is selectable exactly when it is in some family list: the union of the lists equals `single_element_col` |
| `Families.SelectableNeverFails` | app.py:161-165 | `get_compound_type` succeeds exactly on the symbols the select boxes offer |
| `Families.StripAll` | app.py:199-211 | the comprehension `[elem.strip(c) for elem in xs]` has one entry per symbol, and each entry is the stripped form, by the reference definition, of the symbol at the same position |
| `Families.CleanedMembers` | app.py:199-214 | each cleaned list has one entry per declared symbol, and `_` followed by each cleaned entry is the declared symbol at the same position |
| `Families.StripUnderscore` | app.py:199 | a symbol written with one leading `_` strips to the bare symbol |
| `Families.CleanedMembersValue` | app.py:199-214 | the six cleaned lists written out, including the alkali list with `Cs` twice |
| `Families.CleanedMembersAreStripped` | app.py:199-214 | every cleaned list, the hand-written `['Al']` and `['Yb', 'Lu', 'La']` included, is its declared list with `_` stripped from each symbol |
| `Families.MemberIsUnderscored` | app.py:101-106 | every listed symbol is `_` followed by its stripped form |
| `Families.CleanedMemberOrigin` | app.py:199-214 | a formula is in a family's cleaned list exactly when `_` followed by it is in that family's declared list |
| `Families.CleanedMembersDisjoint` | app.py:199-215 | the cleaned lists are pairwise disjoint |
| `Tables.Where` | app.py:200 | a mask selection keeps at most as many rows as the table has |
| `Tables.WhereSound` | app.py:200 | every row a mask selection keeps satisfies the mask, and no row is kept more often than it occurs in the table |
| `Tables.WhereComplete` | app.py:200 | every table row that satisfies the mask is kept |
| `Tables.WhereAppend` | app.py:200 | selection keeps table order: selecting from a concatenation is concatenating the selections |
| `Tables.WhereCongruent` | app.py:200 | two masks that agree on every row of the table select the same rows |
| `Tables.WhereNone` | app.py:337 | a mask that holds of no row selects nothing |
| `Tables.WhereFirst` | app.py:167 | the first selected row is the first table row satisfying the mask |
| `Tables.NormaliseFormulas` | app.py:154 | every formula is replaced by its `strip('-')` in the sense of the reference definition; the other columns and the row order are unchanged |
| `Tables.NormaliseIdempotent` | app.py:154 | normalising an already normalised table changes nothing |
| `Tables.FamilyFilter` | app.py:200-215 | every row kept is a table row whose formula is in the cleaned list; every such table row is kept; no row is duplicated |
| `Tables.FamilyTable` | app.py:200-215 | a family table holds only table rows whose formula, written with a leading `_`, is in that family's declared list, and holds every such row |
| `Tables.FamilyFilterAppend` | app.py:200-215 | the family filter keeps table order |
| `Tables.FamilyFilterSetOnly` | app.py:199-200 | the family filter depends only on which formulas are listed, not on their order or repetition |
| `Tables.AlkaliDuplicateHarmless` | app.py:199-200 | the alkali table, built from a list naming `Cs` twice, equals the table built with `Cs` named once |
| `Tables.FamilyTableAgreesWithClassifier` | app.py:199-215 | a row is in a family's table exactly when `get_compound_type`'s chain, given the row's formula with a leading `_`, classifies it into that family |
| `Tables.FamilyTablesDisjoint` | app.py:199-215 | no row appears in two family tables |
| `Tables.FirstOrIndexError` | app.py:167-169 | `.tolist()[0]` raises `IndexError` exactly on an empty list and otherwise gives its first entry |
| `Tables.LookupProperties` | app.py:167-169 | raises `IndexError` exactly when no row's formula equals the stripped feature name; otherwise the three values all come from the first such row |
| `Tables.SelectFormula` | app.py:167 | the selection holds only rows whose formula is the key, and every such row |
| `Tables.SelectFirstRow` | app.py:167 | the formula selection is empty exactly when no row has the formula, and otherwise starts with the first row that has it |
| `Tables.LookupRowInFamilyTable` | app.py:167-169 | for a listed feature, the row the lookup reads is a row of that feature's family table |
| `Tables.LookupFirstRow` | app.py:167-169 | when the first row's formula is the stripped feature name, the lookup returns that row's three values |
| `Tables.LookupExample` | app.py:167-169 | in a table of `K` and `Na`, `_K` yields `K`'s values and `_Cs` raises `IndexError` |
| `Tables.SelectResults` | app.py:337-338 | the rows kept are exactly the table rows with a selected id and the given `type`, none duplicated |
| `Tables.ResultValues` | app.py:337-348 | the column has one entry per selected row; every value shown is the `value` of a row with a selected id and the given `type`, and the value of every such row is shown |
| `Tables.PreviousMethod` | app.py:337 | the "Previous method" column has one entry per selected `old` row; each is the value of such a row, and every such row's value is shown |
| `Tables.ProposedMethod` | app.py:338 | the "Proposed method" column has one entry per selected `new` row; each is the value of such a row, and every such row's value is shown |
| `Tables.ResultValuesAppend` | app.py:337-348 | the value columns keep table order |
| `Tables.ResultValuesSetOnly` | app.py:337-348 | the value columns depend only on which ids are selected, not on their order or repetition |
| `Tables.NothingSelectedNothingShown` | app.py:320-348 | with no id selected, both the previous-method and the proposed-method columns are empty |

## Left out

- Page layout, expanders, columns, select boxes, the multiselect, `st.write` and `st.dataframe`. They are presentation only. The select boxes appear only as the list of symbols they offer.
- Reading `properties.csv`: the model assumes every `MolecularFormula` cell is a string. pandas reads an empty cell as a float NaN, and then `x.strip('-')` at app.py:154 raises `AttributeError`; that error path is not modelled.
- Reading `properties.csv`, `result_selectivity.csv` and `result_PEO.csv` (file I/O). The loaded tables are parameters of the queries.
- The randomly generated training and inference data. It is nondeterministic and float-valued.
- All numeric values: the property and score columns are uninterpreted, and so are the hard-coded floats of the "refactorized" example tables.
- Construction of display DataFrames: the `.assign(hack='').set_index('hack')` idiom, `.iloc[:, 1:]`, slicing the feature list into display rows, and the prose. In particular, building the two-column result frame from value lists of unequal length would fail in pandas, and that is not modelled.
- `Families.Description`: each family's descriptive paragraph is reduced to its heading (for example "Alkali metals"). The model distinguishes the six texts but does not reproduce their prose.
- `Tables.Where`: its own contract states only the length bound. That kept rows satisfy the mask, that every satisfying row is kept, and that table order is kept are the separate lemmas `WhereSound`, `WhereComplete` and `WhereAppend`.
- `Tables.LookupProperties`: the source runs the three column lookups as three separate selections. The model makes one selection and reads three columns of it; the selections are identical, so the results are the same.
- The second element column (app.py:186-188) is the same lookup applied to the second selected feature, and is not modelled separately.
- Commented-out code (app.py:321-330, 352-353).
