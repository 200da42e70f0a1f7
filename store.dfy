/**
 * The `clarence` table and the listing loop that fills it. Rows are
 * looked up by `council_reference` and a row is inserted only when no
 * row with that reference exists yet.
 */
module Store {
  import opened Wrappers
  import opened Dates
  import opened Listing

  predicate HasReference(rows: seq<Row>, ref: string) {
    exists i :: 0 <= i < |rows| && rows[i].councilReference == ref
  }

  /** At most one row per council reference. */
  predicate DistinctReferences(rows: seq<Row>) {
    forall i, j :: 0 <= i < j < |rows| ==> rows[i].councilReference != rows[j].councilReference
  }

  lemma HasReferenceConcat(a: seq<Row>, b: seq<Row>, ref: string)
    ensures HasReference(a + b, ref) <==> HasReference(a, ref) || HasReference(b, ref)
  {
    if HasReference(a + b, ref) {
      var i :| 0 <= i < |a + b| && (a + b)[i].councilReference == ref;
      if i >= |a| {
        assert b[i - |a|] == (a + b)[i];
      }
    }
    if HasReference(a, ref) {
      var i :| 0 <= i < |a| && a[i].councilReference == ref;
      assert (a + b)[i] == a[i];
    }
    if HasReference(b, ref) {
      var i :| 0 <= i < |b| && b[i].councilReference == ref;
      assert (a + b)[|a| + i] == b[i];
    }
  }

  /** `SELECT * FROM clarence WHERE council_reference = ?`, in table order. */
  function RowsWithReference(rows: seq<Row>, ref: string): (r: seq<Row>)
    ensures forall x :: x in r <==> x in rows && x.councilReference == ref
    ensures r == [] <==> !HasReference(rows, ref)
    ensures DistinctReferences(rows) ==> |r| <= 1
  {
    if rows == [] then []
    else
      var prev := RowsWithReference(rows[..|rows| - 1], ref);
      assert rows == rows[..|rows| - 1] + [rows[|rows| - 1]];
      HasReferenceConcat(rows[..|rows| - 1], [rows[|rows| - 1]], ref);
      if rows[|rows| - 1].councilReference == ref then prev + [rows[|rows| - 1]] else prev
  }

  /** The check-then-insert on one decoded row. */
  function AddIfAbsent(rows: seq<Row>, row: Row): (r: seq<Row>)
    ensures HasReference(r, row.councilReference)
    ensures HasReference(rows, row.councilReference) ==> r == rows
    ensures !HasReference(rows, row.councilReference) ==> r == rows + [row]
    ensures DistinctReferences(rows) ==> DistinctReferences(r)
  {
    if HasReference(rows, row.councilReference) then rows
    else
      assert (rows + [row])[|rows|] == row;
      rows + [row]
  }

  /** An anchor after decoding: the row it gives, or why it is skipped. */
  type Outcome = Result<Row, Skip>

  /** One iteration of the listing loop on a decoded anchor. */
  function Step(rows: seq<Row>, d: Outcome): (r: seq<Row>)
    ensures r == rows || (d.Ok? && !HasReference(rows, d.value.councilReference) && r == rows + [d.value])
    ensures d.Ok? ==> HasReference(r, d.value.councilReference)
  {
    match d
    case Err(_) => rows
    case Ok(row) => AddIfAbsent(rows, row)
  }

  /** The table after the listing loop has run over `ds`, in document order. */
  function Run(rows: seq<Row>, ds: seq<Outcome>): seq<Row>
    decreases |ds|
  {
    if ds == [] then rows else Step(Run(rows, ds[..|ds| - 1]), ds[|ds| - 1])
  }

  /** The loop only appends: existing rows are never updated or removed,
      and each anchor adds at most one row. */
  lemma {:induction false} RunExtends(rows: seq<Row>, ds: seq<Outcome>)
    ensures var r := Run(rows, ds);
      |rows| <= |r| <= |rows| + |ds| && r[..|rows|] == rows
    decreases |ds|
  {
    if ds != [] {
      RunExtends(rows, ds[..|ds| - 1]);
    }
  }

  /** References stay pairwise distinct across a run. */
  lemma {:induction false} RunKeepsDistinct(rows: seq<Row>, ds: seq<Outcome>)
    requires DistinctReferences(rows)
    ensures DistinctReferences(Run(rows, ds))
    decreases |ds|
  {
    if ds != [] {
      RunKeepsDistinct(rows, ds[..|ds| - 1]);
    }
  }

  /** Every row a run adds is the row of one of the decoded anchors. */
  lemma {:induction false} RunNewRows(rows: seq<Row>, ds: seq<Outcome>)
    ensures var r := Run(rows, ds);
      forall k :: |rows| <= k < |r| ==> exists i :: 0 <= i < |ds| && ds[i] == Ok(r[k])
    decreases |ds|
  {
    if ds != [] {
      var ds' := ds[..|ds| - 1];
      RunNewRows(rows, ds');
      RunExtends(rows, ds');
      var prev := Run(rows, ds');
      var r := Run(rows, ds);
      forall k | |rows| <= k < |r|
        ensures exists i :: 0 <= i < |ds| && ds[i] == Ok(r[k])
      {
        if k < |prev| {
          var i :| 0 <= i < |ds'| && ds'[i] == Ok(prev[k]);
          assert ds[i] == ds'[i];
        } else {
          assert ds[|ds| - 1] == Ok(r[k]);
        }
      }
    }
  }

  /** A step never loses a reference and always holds the reference of
      the row it decoded. */
  lemma StepReferences(rows: seq<Row>, d: Outcome, ref: string)
    ensures HasReference(rows, ref) ==> HasReference(Step(rows, d), ref)
    ensures d.Ok? && d.value.councilReference == ref ==> HasReference(Step(rows, d), ref)
  {
    match d
    case Err(_) =>
    case Ok(row) =>
      if !HasReference(rows, row.councilReference) {
        HasReferenceConcat(rows, [row], ref);
      }
  }

  /** After a run, the reference of every decoded anchor is in the table. */
  lemma {:induction false} RunCovers(rows: seq<Row>, ds: seq<Outcome>)
    ensures forall i :: 0 <= i < |ds| && ds[i].Ok? ==>
      HasReference(Run(rows, ds), ds[i].value.councilReference)
    decreases |ds|
  {
    if ds != [] {
      var ds' := ds[..|ds| - 1];
      RunCovers(rows, ds');
      var prev := Run(rows, ds');
      forall i | 0 <= i < |ds| && ds[i].Ok?
        ensures HasReference(Step(prev, ds[|ds| - 1]), ds[i].value.councilReference)
      {
        if i < |ds'| {
          assert ds[i] == ds'[i];
        }
        StepReferences(prev, ds[|ds| - 1], ds[i].value.councilReference);
      }
    }
  }

  /** A run over anchors whose references are all present changes nothing. */
  lemma {:induction false} RunUnchanged(rows: seq<Row>, ds: seq<Outcome>)
    requires forall i :: 0 <= i < |ds| && ds[i].Ok? ==> HasReference(rows, ds[i].value.councilReference)
    ensures Run(rows, ds) == rows
    decreases |ds|
  {
    if ds != [] {
      var ds' := ds[..|ds| - 1];
      assert forall i :: 0 <= i < |ds'| ==> ds'[i] == ds[i];
      RunUnchanged(rows, ds');
    }
  }

  /** Processing the same listing a second time inserts nothing, even on
      another day: the second run finds every reference of the first. */
  lemma RunIdempotent(rows: seq<Row>, es: seq<Entry>, date1: string, env1: Env, date2: string, env2: Env)
    ensures var once := Run(rows, DecodeAll(es, date1, env1));
      Run(once, DecodeAll(es, date2, env2)) == once
  {
    var ds1, ds2 := DecodeAll(es, date1, env1), DecodeAll(es, date2, env2);
    var once := Run(rows, ds1);
    RunCovers(rows, ds1);
    forall i | 0 <= i < |ds2| && ds2[i].Ok?
      ensures HasReference(once, ds2[i].value.councilReference)
    {
      assert ds1[i] == Decode(es[i], date1, env1) && ds2[i] == Decode(es[i], date2, env2);
      DecodeReferenceStable(es[i], date1, env1, date2, env2);
    }
    RunUnchanged(once, ds2);
  }

  /** Running over a listing in two halves is running over the whole. */
  lemma {:induction false} RunAppend(rows: seq<Row>, a: seq<Outcome>, b: seq<Outcome>)
    ensures Run(rows, a + b) == Run(Run(rows, a), b)
    decreases |b|
  {
    if b == [] {
      assert a + b == a;
    } else {
      var b' := b[..|b| - 1];
      assert (a + b)[..|a + b| - 1] == a + b';
      RunAppend(rows, a, b');
    }
  }

  /** A skipped anchor (image link or malformed text) leaves the table as
      it was and does not affect the anchors after it. */
  lemma SkippedEntryIgnored(rows: seq<Row>, a: seq<Outcome>, d: Outcome, b: seq<Outcome>)
    requires d.Err?
    ensures Run(rows, a + [d] + b) == Run(rows, a + b)
  {
    RunAppend(rows, a + [d], b);
    assert (a + [d])[..|a + [d]| - 1] == a;
    RunAppend(rows, a, b);
  }

  /** The rows of the decoded anchors, in document order. */
  function Accepted(ds: seq<Outcome>): seq<Row>
    decreases |ds|
  {
    if ds == [] then []
    else
      var prev := Accepted(ds[..|ds| - 1]);
      match ds[|ds| - 1]
      case Ok(row) => prev + [row]
      case Err(_) => prev
  }

  /** Candidate `i` is the first with its reference and that reference is
      not yet in `rows`. */
  predicate IsFirstNew(rows: seq<Row>, cands: seq<Row>, i: nat)
    requires i < |cands|
  {
    !HasReference(rows, cands[i].councilReference) &&
    !HasReference(cands[..i], cands[i].councilReference)
  }

  /** The candidates that pass `IsFirstNew`, in their order. */
  function FirstNew(rows: seq<Row>, cands: seq<Row>): seq<Row>
    decreases |cands|
  {
    if cands == [] then []
    else
      var n := |cands| - 1;
      FirstNew(rows, cands[..n]) + if IsFirstNew(rows, cands, n) then [cands[n]] else []
  }

  lemma {:induction false} FirstNewReferences(rows: seq<Row>, cands: seq<Row>, ref: string)
    requires !HasReference(rows, ref)
    ensures HasReference(FirstNew(rows, cands), ref) <==> HasReference(cands, ref)
    decreases |cands|
  {
    if cands != [] {
      var n := |cands| - 1;
      FirstNewReferences(rows, cands[..n], ref);
      var tail := if IsFirstNew(rows, cands, n) then [cands[n]] else [];
      HasReferenceConcat(FirstNew(rows, cands[..n]), tail, ref);
      assert cands == cands[..n] + [cands[n]];
      HasReferenceConcat(cands[..n], [cands[n]], ref);
    }
  }

  /** One accepted row extends the first-new candidates exactly as the
      check-then-insert extends the table. */
  lemma AddIfAbsentFirstNew(rows: seq<Row>, prev: seq<Row>, row: Row)
    ensures AddIfAbsent(rows + FirstNew(rows, prev), row) == rows + FirstNew(rows, prev + [row])
  {
    var added := FirstNew(rows, prev);
    var cands := prev + [row];
    assert cands[..|cands| - 1] == prev;
    var ref := row.councilReference;
    HasReferenceConcat(rows, added, ref);
    if !HasReference(rows, ref) {
      FirstNewReferences(rows, prev, ref);
    }
  }

  /** The rows a run adds are exactly the decoded rows whose reference is
      new, each at its first occurrence, in the order of the anchors. */
  lemma {:induction false} RunOrder(rows: seq<Row>, ds: seq<Outcome>)
    ensures Run(rows, ds) == rows + FirstNew(rows, Accepted(ds))
    decreases |ds|
  {
    if ds != [] {
      var ds' := ds[..|ds| - 1];
      RunOrder(rows, ds');
      match ds[|ds| - 1]
      case Err(_) =>
      case Ok(row) =>
        AddIfAbsentFirstNew(rows, Accepted(ds'), row);
    }
  }

  /** Every row a run over a listing adds carries the run's scrape date,
      a null received date, a non-empty reference and a closing date that
      is a printed date or the sentinel. */
  lemma RunRowFields(rows: seq<Row>, es: seq<Entry>, dateScraped: string, env: Env)
    ensures var r := Run(rows, DecodeAll(es, dateScraped, env));
      forall k :: |rows| <= k < |r| ==>
        r[k].dateScraped == dateScraped && r[k].dateReceived == None &&
        r[k].councilReference != [] &&
        (r[k].onNoticeTo == InvalidDate || IsIsoDate(r[k].onNoticeTo))
  {
    var ds := DecodeAll(es, dateScraped, env);
    RunNewRows(rows, ds);
  }

  /** The `clarence` table, held as its rows in insertion order. */
  class Table {
    var rows: seq<Row>

    /** The table as found on disk when the run starts. */
    constructor (existing: seq<Row>)
      ensures rows == existing
    {
      rows := existing;
    }

    /** The existence check before an insert. */
    method Select(ref: string) returns (matches: seq<Row>)
      ensures matches == RowsWithReference(rows, ref)
    {
      var all := rows;
      matches := [];
      var i := 0;
      while i < |all|
        invariant 0 <= i <= |all|
        invariant matches == RowsWithReference(all[..i], ref)
      {
        var seen := all[..i + 1];
        assert seen[..i] == all[..i] && seen[i] == all[i];
        if all[i].councilReference == ref {
          matches := matches + [all[i]];
        }
        i := i + 1;
      }
      assert all[..i] == all;
    }

    /** Inserts `row` unless a row with its reference already exists. */
    method InsertIfAbsent(row: Row) returns (inserted: bool)
      modifies this
      ensures inserted <==> !HasReference(old(rows), row.councilReference)
      ensures rows == AddIfAbsent(old(rows), row)
    {
      var existing := Select(row.councilReference);
      inserted := existing == [];
      if inserted {
        rows := rows + [row];
      }
    }

    /** The listing loop: each entry in document order is decoded and,
        when it decodes, inserted if its reference is new. */
    method Process(entries: seq<Entry>, today: CivilDate, env: Env)
      modifies this
      ensures rows == Run(old(rows), DecodeAll(entries, ToIso(today), env))
      ensures DistinctReferences(old(rows)) ==> DistinctReferences(rows)
    {
      var dateScraped := ToIso(today);
      ghost var ds := DecodeAll(entries, dateScraped, env);
      var i := 0;
      while i < |entries|
        invariant 0 <= i <= |entries| == |ds|
        invariant rows == Run(old(rows), ds[..i])
        invariant DistinctReferences(old(rows)) ==> DistinctReferences(rows)
      {
        assert ds[..i + 1][..i] == ds[..i];
        assert ds[i] == Decode(entries[i], dateScraped, env);
        match Decode(entries[i], dateScraped, env) {
          case Err(_) =>
          case Ok(row) =>
            var _ := InsertIfAbsent(row);
        }
        i := i + 1;
      }
      assert ds[..i] == ds;
    }
  }
}
