/**
 * Synonym tables and the file-type check of utils.py.
 *
 * A synonym table is a sequence of groups; the first spelling of a group is
 * its canonical key. Lookup scans the groups in order and the first group that
 * contains the key wins.
 */
module Synonyms {
  import opened Wrappers

  type Group = seq<string>
  type Table = seq<Group>

  /** Some group of the table contains the key. */
  ghost predicate Listed(key: string, table: Table) {
    exists i :: 0 <= i < |table| && key in table[i]
  }

  /** Group i contains the key and no earlier group does. */
  ghost predicate IsFirstGroup(key: string, table: Table, i: int) {
    0 <= i < |table| && key in table[i] && forall j :: 0 <= j < i ==> key !in table[j]
  }

  /** No spelling belongs to two groups. */
  ghost predicate GroupsDisjoint(table: Table) {
    forall i, j, k :: 0 <= j < i < |table| && 0 <= k < |table[i]| ==> table[i][k] !in table[j]
  }

  /** No canonical key appears in an earlier group, so canonicalising a canonical key gives it back. */
  ghost predicate HeadsFirst(table: Table) {
    forall i, j :: 0 <= j < i < |table| && |table[i]| > 0 ==> table[i][0] !in table[j]
  }

  /**
   * get_canonic_synonym: the head of the first group containing the key; for an
   * unlisted key, None when skipMissing holds and ValueError otherwise.
   */
  function CanonicSynonym(key: string, table: Table, skipMissing: bool): (r: Result<Option<string>>)
    ensures Listed(key, table) ==> exists i :: IsFirstGroup(key, table, i) && r == Ok(Some(table[i][0]))
    ensures !Listed(key, table) ==> r == (if skipMissing then Ok(None) else Err(ValueError))
  {
    if |table| == 0 then
      (if skipMissing then Ok(None) else Err(ValueError))
    else if key in table[0] then
      Ok(Some(table[0][0]))
    else
      var r := CanonicSynonym(key, table[1..], skipMissing);
      ShiftListed(key, table);
      r
  }

  /** Listing and first-group facts move across dropping a first group that lacks the key. */
  lemma ShiftListed(key: string, table: Table)
    requires |table| > 0 && key !in table[0]
    ensures Listed(key, table) <==> Listed(key, table[1..])
    ensures forall i :: IsFirstGroup(key, table[1..], i) ==> IsFirstGroup(key, table, i + 1)
  {
    if Listed(key, table) {
      var i :| 0 <= i < |table| && key in table[i];
      assert table[1..][i - 1] == table[i];
    }
    if Listed(key, table[1..]) {
      var i :| 0 <= i < |table[1..]| && key in table[1..][i];
      assert table[i + 1] == table[1..][i];
    }
    forall i | IsFirstGroup(key, table[1..], i) ensures IsFirstGroup(key, table, i + 1) {
      forall j | 0 <= j < i + 1 ensures key !in table[j] {
        if j > 0 { assert table[j] == table[1..][j - 1]; }
      }
    }
  }

  /** is_in_synonyms: the key belongs to some group. */
  function IsInSynonyms(key: string, table: Table): (r: bool)
    ensures r <==> Listed(key, table)
  {
    CanonicSynonym(key, table, true) != Ok(None)
  }

  /** The canonical key of a listed key belongs to the key's own first group. */
  lemma {:induction false} CanonicInOwnGroup(key: string, table: Table)
    requires Listed(key, table)
    ensures CanonicSynonym(key, table, false).Ok?
    ensures var h := CanonicSynonym(key, table, false).value;
      h.Some? && exists i :: IsFirstGroup(key, table, i) && h.value in table[i]
  {
    var r := CanonicSynonym(key, table, false);
    var i :| IsFirstGroup(key, table, i) && r == Ok(Some(table[i][0]));
    assert table[i][0] in table[i];
  }

  /** Canonicalisation is idempotent when no canonical key shows up in an earlier group. */
  lemma {:induction false} CanonicIdempotent(key: string, table: Table, skipMissing: bool)
    requires HeadsFirst(table)
    requires CanonicSynonym(key, table, skipMissing).Ok? && CanonicSynonym(key, table, skipMissing).value.Some?
    ensures var h := CanonicSynonym(key, table, skipMissing).value.value;
      CanonicSynonym(h, table, skipMissing) == Ok(Some(h))
  {
    assert Listed(key, table);
    var r := CanonicSynonym(key, table, skipMissing);
    var i :| IsFirstGroup(key, table, i) && r == Ok(Some(table[i][0]));
    var h := table[i][0];
    assert h in table[i];
    assert Listed(h, table);
    assert IsFirstGroup(h, table, i);
    var r' := CanonicSynonym(h, table, skipMissing);
    var k :| IsFirstGroup(h, table, k) && r' == Ok(Some(table[k][0]));
    assert k == i;
  }

  /** A key whose first group is known canonicalises to that group's head. */
  lemma FirstGroupGivesHead(key: string, table: Table, i: int, skipMissing: bool)
    requires IsFirstGroup(key, table, i)
    ensures CanonicSynonym(key, table, skipMissing) == Ok(Some(table[i][0]))
  {
    assert Listed(key, table);
    var r := CanonicSynonym(key, table, skipMissing);
    var k :| IsFirstGroup(key, table, k) && r == Ok(Some(table[k][0]));
    assert k == i;
  }

  /** In a table of disjoint groups, group i is the first group of each of its members. */
  lemma MemberCanonical(key: string, table: Table, i: int, skipMissing: bool)
    requires GroupsDisjoint(table) && 0 <= i < |table| && key in table[i]
    ensures CanonicSynonym(key, table, skipMissing) == Ok(Some(table[i][0]))
  {
    var k :| 0 <= k < |table[i]| && table[i][k] == key;
    FirstGroupGivesHead(key, table, i, skipMissing);
  }

  /** In a table whose heads come first, every head canonicalises to itself. */
  lemma HeadCanonical(table: Table, i: int, skipMissing: bool)
    requires HeadsFirst(table) && 0 <= i < |table| && |table[i]| > 0
    ensures CanonicSynonym(table[i][0], table, skipMissing) == Ok(Some(table[i][0]))
  {
    FirstGroupGivesHead(table[i][0], table, i, skipMissing);
  }

  /** The text after the last '.', or the whole name when it has none (filename.split('.')[-1]). */
  function Extension(filename: string): (r: string)
    ensures |r| <= |filename| && r == filename[|filename| - |r|..]
    ensures '.' !in r
    ensures |r| < |filename| ==> filename[|filename| - |r| - 1] == '.'
  {
    if |filename| == 0 then ""
    else if filename[|filename| - 1] == '.' then ""
    else Extension(filename[..|filename| - 1]) + [filename[|filename| - 1]]
  }

  /**
   * get_detected_doctype_by_filename: 'txt' or 'yaml' from the extension, else a
   * non-empty default, else ValueError.
   */
  function DetectedDoctype(filename: string, default: Option<string>): (r: Result<string>)
    ensures Extension(filename) in {"txt", "yaml"} ==> r == Ok(Extension(filename))
    ensures Extension(filename) !in {"txt", "yaml"} && default.Some? && default.value != "" ==> r == Ok(default.value)
    ensures r.Err? <==> Extension(filename) !in {"txt", "yaml"} && (default.None? || default.value == "")
    ensures r.Err? ==> r.error == ValueError
  {
    var extension := Extension(filename);
    if extension == "txt" || extension == "yaml" then Ok(extension)
    else if default.Some? && default.value != "" then Ok(default.value)
    else Err(ValueError)
  }
}
