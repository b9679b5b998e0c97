// The saved-scenario list and the portfolio around it in src/App.jsx:
// deleting and renaming the selected scenario, the two-slot comparison
// selection, the order of the portfolio table, and the import's fallback
// column for the target rent.

module Scenarios {
  import opened Wrappers
  import opened Text

  /** A saved scenario: its id, display name, form values and creation stamp. */
  datatype Scenario = Scenario(id: string, name: string, values: map<string, string>, createdAt: string)

  /** The saved scenarios and the id picked in the selector (`""` when none). */
  datatype Library = Library(scenarios: seq<Scenario>, selectedId: string)

  // ---------------------------------------------------------------- delete

  /** The scenarios whose id differs from `id`, in their original order. */
  function Without(scenarios: seq<Scenario>, id: string): (r: seq<Scenario>)
    ensures |r| <= |scenarios|
    decreases |scenarios|
  {
    if scenarios == [] then []
    else if scenarios[0].id == id then Without(scenarios[1..], id)
    else [scenarios[0]] + Without(scenarios[1..], id)
  }

  /** An entry survives the filter exactly when its id differs. */
  lemma {:induction false} WithoutMembers(scenarios: seq<Scenario>, id: string)
    ensures forall s :: s in Without(scenarios, id) <==> s in scenarios && s.id != id
    decreases |scenarios|
  {
    if scenarios != [] {
      WithoutMembers(scenarios[1..], id);
      assert forall s :: s in scenarios <==> s == scenarios[0] || s in scenarios[1..];
    }
  }

  /** Filtering keeps the order: it distributes over concatenation. */
  lemma {:induction false} WithoutAppend(a: seq<Scenario>, b: seq<Scenario>, id: string)
    ensures Without(a + b, id) == Without(a, id) + Without(b, id)
    decreases |a|
  {
    if a == [] {
      assert a + b == b;
    } else {
      var ab := a + b;
      assert ab[0] == a[0] && ab[1..] == a[1..] + b;
      WithoutAppend(a[1..], b, id);
      if a[0].id != id {
        assert Without(ab, id) == [a[0]] + Without(a[1..] + b, id);
        assert Without(a, id) == [a[0]] + Without(a[1..], id);
        assert [a[0]] + (Without(a[1..], id) + Without(b, id)) == ([a[0]] + Without(a[1..], id)) + Without(b, id);
      }
    }
  }

  /** Only entries with the id are dropped: a list without it is left as it is. */
  lemma {:induction false} WithoutAbsent(scenarios: seq<Scenario>, id: string)
    requires forall s :: s in scenarios ==> s.id != id
    ensures Without(scenarios, id) == scenarios
    decreases |scenarios|
  {
    if scenarios != [] {
      assert scenarios[0] in scenarios;
      assert forall s :: s in scenarios[1..] ==> s in scenarios;
      WithoutAbsent(scenarios[1..], id);
      assert [scenarios[0]] + scenarios[1..] == scenarios;
    }
  }

  /**
   * `deleteScenario`: with a scenario selected, every entry carrying its id
   * is removed and the first remaining scenario (or none) becomes selected.
   */
  function DeleteScenario(lib: Library): (r: Library)
    ensures lib.selectedId == "" ==> r == lib
    ensures lib.selectedId != "" ==>
      r.scenarios == Without(lib.scenarios, lib.selectedId) &&
      (forall s :: s in r.scenarios ==> s.id != lib.selectedId) &&
      r.selectedId == (if r.scenarios == [] then "" else r.scenarios[0].id)
  {
    if lib.selectedId == "" then lib
    else
      var next := Without(lib.scenarios, lib.selectedId);
      WithoutMembers(lib.scenarios, lib.selectedId);
      Library(next, if next == [] then "" else next[0].id)
  }

  /** Deleting again with the same id changes no list: the first delete removed every match. */
  lemma DeleteRemovesAllMatches(lib: Library)
    requires lib.selectedId != ""
    ensures Without(DeleteScenario(lib).scenarios, lib.selectedId) == DeleteScenario(lib).scenarios
  {
    WithoutAbsent(DeleteScenario(lib).scenarios, lib.selectedId);
  }

  // ---------------------------------------------------------------- rename

  /** The name a rename stores: the typed name, `"Scenario"` when empty, trimmed. */
  function NewName(scenarioName: string): (r: string)
    ensures r == [] || (!IsSpace(r[0]) && !IsSpace(r[|r| - 1]))
    ensures scenarioName == "" ==> r == "Scenario"
    ensures scenarioName != "" ==> r == Trim(scenarioName)
  {
    assert Trim("Scenario") == "Scenario" by {
      TrimEdgeFree("Scenario");
    }
    Trim(if scenarioName == "" then "Scenario" else scenarioName)
  }

  /**
   * `renameScenario`: the selected scenario gets the new name; order, ids,
   * values and creation stamps, and every other scenario, stay as they were.
   */
  function RenameScenario(lib: Library, scenarioName: string): (r: Library)
    ensures lib.selectedId == "" ==> r == lib
    ensures r.selectedId == lib.selectedId
    ensures |r.scenarios| == |lib.scenarios|
    ensures forall k :: 0 <= k < |r.scenarios| ==>
      var (s, t) := (lib.scenarios[k], r.scenarios[k]);
      t.id == s.id && t.values == s.values && t.createdAt == s.createdAt &&
      t.name == (if lib.selectedId != "" && s.id == lib.selectedId then NewName(scenarioName) else s.name)
  {
    if lib.selectedId == "" then lib
    else
      var name := NewName(scenarioName);
      var next := seq(|lib.scenarios|, k requires 0 <= k < |lib.scenarios| =>
        var s := lib.scenarios[k];
        if s.id == lib.selectedId then s.(name := name) else s);
      Library(next, lib.selectedId)
  }

  /** Renaming twice with the same text is the same as renaming once. */
  lemma RenameIdempotent(lib: Library, scenarioName: string)
    ensures RenameScenario(RenameScenario(lib, scenarioName), scenarioName) == RenameScenario(lib, scenarioName)
  {
    var once := RenameScenario(lib, scenarioName);
    var twice := RenameScenario(once, scenarioName);
    assert |twice.scenarios| == |once.scenarios|;
    forall k | 0 <= k < |once.scenarios|
      ensures twice.scenarios[k] == once.scenarios[k]
    {
    }
  }

  /** Typing a name that is already trimmed stores it exactly. */
  lemma RenameKeepsTrimmedName(scenarioName: string)
    requires scenarioName != "" && !IsSpace(scenarioName[0]) && !IsSpace(scenarioName[|scenarioName| - 1])
    ensures NewName(scenarioName) == scenarioName
  {
    TrimEdgeFree(scenarioName);
  }

  // --------------------------------------------------------------- compare

  /** The ids other than `id`, in their original order. */
  function DropId(ids: seq<string>, id: string): (r: seq<string>)
    ensures |r| <= |ids|
    ensures forall x :: x in r <==> x in ids && x != id
    ensures id in ids <==> |r| < |ids|
    ensures id !in ids ==> r == ids
    decreases |ids|
  {
    if ids == [] then []
    else if ids[0] == id then DropId(ids[1..], id)
    else [ids[0]] + DropId(ids[1..], id)
  }

  /** A well-formed comparison selection: at most two ids, none twice. */
  predicate ValidSelection(ids: seq<string>) {
    |ids| <= 2 && forall i, j :: 0 <= i < j < |ids| ==> ids[i] != ids[j]
  }

  /**
   * `toggleCompare`: a selected id is removed; an unselected one is added
   * last, and when two are already held the older one is dropped.
   */
  function ToggleCompare(ids: seq<string>, id: string): (r: seq<string>)
    ensures id in r <==> id !in ids
    ensures id in ids ==> forall x :: x in r <==> x in ids && x != id
    ensures id in ids ==> r == DropId(ids, id)
    ensures id !in ids ==> r[|r| - 1] == id
    ensures id !in ids && |ids| >= 2 ==> r == [ids[1], id]
    ensures id !in ids && |ids| < 2 ==> r == ids + [id]
    ensures |ids| <= 2 ==> |r| <= 2
  {
    if id in ids then DropId(ids, id)
    else if |ids| >= 2 then [ids[1], id]
    else ids + [id]
  }

  /** Toggling keeps a selection well formed. */
  lemma ToggleKeepsSelectionValid(ids: seq<string>, id: string)
    requires ValidSelection(ids)
    ensures ValidSelection(ToggleCompare(ids, id))
  {
  }

  /** With room to spare, toggling the same id twice restores the selection. */
  lemma ToggleTwiceRestores(ids: seq<string>, id: string)
    requires |ids| < 2
    ensures ToggleCompare(ToggleCompare(ids, id), id) == ids
  {
    if id in ids {
      assert ids == [id];
      assert DropId(ids, id) == [];
    } else {
      DropIdConcat(ids, [id], id);
    }
  }

  /** Removing an id works on each part of the selection on its own, so the kept ids stay in order. */
  lemma {:induction false} DropIdConcat(a: seq<string>, b: seq<string>, id: string)
    ensures DropId(a + b, id) == DropId(a, id) + DropId(b, id)
    decreases |a|
  {
    if a == [] {
      assert a + b == b;
    } else {
      assert (a + b)[0] == a[0];
      assert (a + b)[1..] == a[1..] + b;
      DropIdConcat(a[1..], b, id);
    }
  }

  // ------------------------------------------------------------ portfolio

  /**
   * The portfolio table's comparator on a numeric column: rows without a
   * value sort last in either direction, the others by value, ascending
   * when `ascending` and descending otherwise.
   */
  function CompareRows(a: Option<real>, b: Option<real>, ascending: bool): (r: real)
    ensures a.None? && b.Some? ==> r > 0.0
    ensures a.Some? && b.None? ==> r < 0.0
    ensures a.None? && b.None? ==> r == 0.0
    ensures a.Some? && b.Some? ==>
      (r < 0.0 <==> (if ascending then a.value < b.value else a.value > b.value)) &&
      (r == 0.0 <==> a.value == b.value)
  {
    var dir := if ascending then 1.0 else -1.0;
    if a.None? && b.Some? then 1.0
    else if a.Some? && b.None? then -1.0
    else if a.None? && b.None? then 0.0
    else dir * (a.value - b.value)
  }

  /** Swapping the rows flips the comparison. */
  lemma CompareAntisymmetric(a: Option<real>, b: Option<real>, ascending: bool)
    ensures CompareRows(a, b, ascending) == -CompareRows(b, a, ascending)
  {
  }

  /** The comparator orders consistently: "sorts no later than" is transitive. */
  lemma CompareTransitive(a: Option<real>, b: Option<real>, c: Option<real>, ascending: bool)
    requires CompareRows(a, b, ascending) <= 0.0 && CompareRows(b, c, ascending) <= 0.0
    ensures CompareRows(a, c, ascending) <= 0.0
  {
  }

  /** Switching the direction reverses the order of rows that both have a value. */
  lemma CompareDirection(a: real, b: real)
    ensures CompareRows(Some(a), Some(b), true) == -CompareRows(Some(a), Some(b), false)
  {
  }

  // ------------------------------------------------------- import mapping

  function LowerAscii(c: char): char {
    if 'A' <= c <= 'Z' then (c as int + 32) as char else c
  }

  /** `/rent/i`: the header contains "rent" in any mix of upper and lower case. */
  predicate MentionsRent(h: string): (b: bool)
    ensures b ==> |h| >= 4
  {
    exists i :: 0 <= i && i + 4 <= |h| &&
      LowerAscii(h[i]) == 'r' && LowerAscii(h[i + 1]) == 'e' &&
      LowerAscii(h[i + 2]) == 'n' && LowerAscii(h[i + 3]) == 't'
  }

  /** "rent" in any mix of cases, anywhere in a header, is found. */
  lemma MentionsRentAnywhere(prefix: string, word: string, suffix: string)
    requires |word| == 4
    requires LowerAscii(word[0]) == 'r' && LowerAscii(word[1]) == 'e'
    requires LowerAscii(word[2]) == 'n' && LowerAscii(word[3]) == 't'
    ensures MentionsRent(prefix + word + suffix)
  {
    var h := prefix + word + suffix;
    var i := |prefix|;
    assert h[i] == word[0] && h[i + 1] == word[1] && h[i + 2] == word[2] && h[i + 3] == word[3];
  }

  /** `headers.find(h => /rent/i.test(h))`: the index of the first header mentioning rent. */
  function FirstRentHeader(headers: seq<string>): (r: Option<nat>)
    ensures r.Some? ==>
      r.value < |headers| && MentionsRent(headers[r.value]) &&
      (forall j :: 0 <= j < r.value ==> !MentionsRent(headers[j]))
    ensures r.None? ==> forall j :: 0 <= j < |headers| ==> !MentionsRent(headers[j])
    decreases |headers|
  {
    if headers == [] then None
    else if MentionsRent(headers[0]) then Some(0)
    else
      var rest := FirstRentHeader(headers[1..]);
      if rest.None? then None else Some(rest.value + 1)
  }

  /**
   * The import's fallback for the target rent: when the guessed mapping
   * has no (or an empty) target-rent column, it takes the first header
   * mentioning rent, else the first header. With no headers at all the
   * source stores `undefined`, which here is the key left unset.
   */
  function GuessTargetRent(m: map<string, string>, headers: seq<string>): (r: map<string, string>)
    ensures forall k :: k != "targetRent" ==> (k in r <==> k in m) && (k in r ==> r[k] == m[k])
    ensures "targetRent" in m && m["targetRent"] != "" ==> r == m
    ensures ("targetRent" !in m || m["targetRent"] == "") && headers != [] ==>
      "targetRent" in r && r["targetRent"] in headers &&
      (r["targetRent"] == headers[0] || MentionsRent(r["targetRent"]))
    ensures ("targetRent" !in m || m["targetRent"] == "") && headers == [] ==> "targetRent" !in r
  {
    if "targetRent" in m && m["targetRent"] != "" then m
    else
      var found := FirstRentHeader(headers);
      if found.Some? then m["targetRent" := headers[found.value]]
      else if headers != [] then m["targetRent" := headers[0]]
      else m - {"targetRent"}
  }

  /** A header mentioning rent is always preferred over the first header. */
  lemma GuessPrefersRentHeader(m: map<string, string>, headers: seq<string>, j: nat)
    requires "targetRent" !in m
    requires j < |headers| && MentionsRent(headers[j]) && forall i :: 0 <= i < j ==> !MentionsRent(headers[i])
    ensures GuessTargetRent(m, headers)["targetRent"] == headers[j]
  {
    var found := FirstRentHeader(headers);
    assert found == Some(j);
  }
}
