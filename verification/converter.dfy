/**
 `MaxquantToSaintConverter.convert`: from the protein groups of a MaxQuant
 table (and, optionally, the protein lengths of the FASTA file searched) to
 the three SAINT tables.

 The table parser and the FASTA reader are collaborators whose results
 arrive as inputs: `groups` is what `MaxquantService.proteinGroups` returns
 and `fasta` is `None` when no FASTA file is given, `Some(index)` with what
 `SequenceService.sequencesLength` returns otherwise. Interactions are kept
 as records; the interaction file's line format is not part of this model.
 */
module Converter {
  import opened Wrappers
  import opened Text
  import opened Saint
  import opened Classifier
  import opened Lengths

  /** `DELTA`: an intensity whose magnitude does not exceed it means "not detected". */
  const Delta: real := 0.0000000001

  /** `ELEMENT_SEPARATOR`, which joins a group's protein ids and its gene names. */
  const ElementSeparator: string := ";"

  /**
   A row of the protein groups table: its protein ids, its gene names and
   its intensity per sample column, in the intensity map's iteration order.
   */
  datatype ProteinGroup = ProteinGroup(
    proteinIds: seq<string>,
    geneNames: seq<string>,
    intensities: seq<(string, real)>)

  /** `groups.get(0)` on an empty list: there is no first group to take the samples from. */
  datatype ConvertError = NoProteinGroups

  /** The rows of the bait, prey and interaction files, in the order they are written. */
  datatype Tables = Tables(baits: seq<Sample>, preys: seq<Prey>, interactions: seq<Interaction>)

  /** The three files: the bait and prey files as text, the interactions as records. */
  datatype Output = Output(baitFile: string, preyFile: string, interactions: seq<Interaction>)

  function Abs(x: real): real {
    if x < 0.0 then -x else x
  }

  /** `Math.abs(value) > DELTA`: the intensity lies outside the closed band `[-DELTA, DELTA]`. */
  function Detected(value: real): (b: bool)
    ensures b <==> value < -Delta || Delta < value
    ensures value == 0.0 ==> !b
  {
    Abs(value) > Delta
  }

  /**
   The prey key of a group: its protein ids joined with `;`. A single id is
   its own key, and when no id holds `;` the key splits back into the ids.
   */
  function PreyId(group: ProteinGroup): (r: string)
    ensures group.proteinIds == [] ==> r == ""
    ensures |group.proteinIds| == 1 ==> r == group.proteinIds[0]
    ensures |group.proteinIds| >= 1 && (forall i :: 0 <= i < |group.proteinIds| ==> ';' !in group.proteinIds[i]) ==>
              Split(r, ';') == group.proteinIds
  {
    var ids := group.proteinIds;
    assert |ids| >= 1 && (forall i :: 0 <= i < |ids| ==> ';' !in ids[i]) ==> Split(Join(ids, [';']), ';') == ids by {
      if |ids| >= 1 && (forall i :: 0 <= i < |ids| ==> ';' !in ids[i]) {
        SplitJoin(ids, ';');
      }
    }
    Join(ids, ElementSeparator)
  }

  /**
   A group's gene names joined with `;`. A single name is written as is,
   and when no name holds `;` the field splits back into the names.
   */
  function Gene(group: ProteinGroup): (r: string)
    ensures group.geneNames == [] ==> r == ""
    ensures |group.geneNames| == 1 ==> r == group.geneNames[0]
    ensures |group.geneNames| >= 1 && (forall i :: 0 <= i < |group.geneNames| ==> ';' !in group.geneNames[i]) ==>
              Split(r, ';') == group.geneNames
  {
    var names := group.geneNames;
    assert |names| >= 1 && (forall i :: 0 <= i < |names| ==> ';' !in names[i]) ==> Split(Join(names, [';']), ';') == names by {
      if |names| >= 1 && (forall i :: 0 <= i < |names| ==> ';' !in names[i]) {
        SplitJoin(names, ';');
      }
    }
    Join(names, ElementSeparator)
  }

  /** Every protein id of every group, in group order, repeats included. */
  function AllProteinIds(groups: seq<ProteinGroup>): (r: seq<string>)
    ensures forall id :: id in r <==> exists i :: 0 <= i < |groups| && id in groups[i].proteinIds
    decreases |groups|
  {
    if groups == [] then []
    else
      var rest := AllProteinIds(groups[1..]);
      assert forall i :: 1 <= i < |groups| ==> groups[1..][i - 1] == groups[i];
      groups[0].proteinIds + rest
  }

  /** The ids of two runs of groups are the ids of the first run followed by those of the second. */
  lemma {:induction false} AllProteinIdsConcat(a: seq<ProteinGroup>, b: seq<ProteinGroup>)
    ensures AllProteinIds(a + b) == AllProteinIds(a) + AllProteinIds(b)
    decreases |a|
  {
    if a == [] {
      assert a + b == b;
    } else {
      assert (a + b)[1..] == a[1..] + b;
      AllProteinIdsConcat(a[1..], b);
    }
  }

  /**
   Resolving the flattened ids of two runs of groups gives the resolved
   lengths of the first run followed by those of the second: every group's
   lookups enter the average, repeats counted each time.
   */
  lemma ResolvedAllIds(a: seq<ProteinGroup>, b: seq<ProteinGroup>, index: seq<(string, nat)>)
    ensures Resolved(AllProteinIds(a + b), index) == Resolved(AllProteinIds(a), index) + Resolved(AllProteinIds(b), index)
  {
    AllProteinIdsConcat(a, b);
    ResolvedConcat(AllProteinIds(a), AllProteinIds(b), index);
  }

  /** How many intensities the groups hold altogether. */
  function TotalEntries(groups: seq<ProteinGroup>): nat
    decreases |groups|
  {
    if groups == [] then 0 else |groups[0].intensities| + TotalEntries(groups[1..])
  }

  /** Every intensity of every group is detected. */
  predicate AllDetected(groups: seq<ProteinGroup>) {
    forall i, k :: 0 <= i < |groups| && 0 <= k < |groups[i].intensities| ==>
      Detected(groups[i].intensities[k].1)
  }

  /** A group's intensities are all detected. */
  predicate GroupDetected(group: ProteinGroup) {
    forall k :: 0 <= k < |group.intensities| ==> Detected(group.intensities[k].1)
  }

  lemma AllDetectedCons(groups: seq<ProteinGroup>)
    requires groups != []
    ensures AllDetected(groups) <==> GroupDetected(groups[0]) && AllDetected(groups[1..])
  {
    var rest := groups[1..];
    if GroupDetected(groups[0]) && AllDetected(rest) {
      forall i, k | 0 <= i < |groups| && 0 <= k < |groups[i].intensities|
        ensures Detected(groups[i].intensities[k].1)
      {
        if i > 0 {
          assert rest[i - 1] == groups[i];
        }
      }
    }
    if AllDetected(groups) {
      forall i, k | 0 <= i < |rest| && 0 <= k < |rest[i].intensities|
        ensures Detected(rest[i].intensities[k].1)
      {
        assert rest[i] == groups[i + 1];
      }
    }
  }

  /** The bait file's rows: one classified sample per entry of `entries`, in iteration order. */
  function BaitRows(rules: Rules, entries: seq<(string, real)>): (r: seq<Sample>)
    ensures |r| == |entries|
    ensures forall k :: 0 <= k < |r| ==> r[k] == Classify(rules, entries[k].0)
    decreases |entries|
  {
    if entries == [] then []
    else
      var rest := BaitRows(rules, entries[1..]);
      assert forall k :: 1 <= k < |entries| ==> entries[1..][k - 1] == entries[k];
      [Classify(rules, entries[0].0)] + rest
  }

  /** The prey of one group, given the length index and the fallback length. */
  function PreyOf(group: ProteinGroup, index: seq<(string, nat)>, average: nat): (r: Prey)
    ensures r.id == PreyId(group)
    ensures r.gene == Some(Gene(group))
    ensures (exists i :: 0 <= i < |group.proteinIds| && Lookup(index, group.proteinIds[i]).Some?) ==>
              exists i :: 0 <= i < |group.proteinIds| && Lookup(index, group.proteinIds[i]) == Some(r.length)
    ensures (forall i :: 0 <= i < |group.proteinIds| ==> Lookup(index, group.proteinIds[i]).None?) ==> r.length == average
    ensures forall i :: 0 <= i < |group.proteinIds| && Lookup(index, group.proteinIds[i]).Some? ==>
              Lookup(index, group.proteinIds[i]).value <= r.length
    ensures |group.proteinIds| >= 1 && (forall i :: 0 <= i < |group.proteinIds| ==> ';' !in group.proteinIds[i]) ==>
              Split(r.id, ';') == group.proteinIds
  {
    Prey(PreyId(group), GroupLength(group.proteinIds, index, average), Some(Gene(group)))
  }

  /** The prey file's rows: exactly one prey per group, in group order. */
  function PreyRows(groups: seq<ProteinGroup>, index: seq<(string, nat)>, average: nat): (r: seq<Prey>)
    ensures |r| == |groups|
    ensures forall k :: 0 <= k < |r| ==> r[k] == PreyOf(groups[k], index, average)
    decreases |groups|
  {
    if groups == [] then []
    else
      var rest := PreyRows(groups[1..], index, average);
      assert forall k :: 1 <= k < |groups| ==> groups[1..][k - 1] == groups[k];
      [PreyOf(groups[0], index, average)] + rest
  }

  /**
   The interactions of one group whose prey key is `preyId`: one per
   detected intensity, in iteration order, carrying the classified sample.
   */
  function GroupInteractions(rules: Rules, preyId: string, entries: seq<(string, real)>): (r: seq<Interaction>)
    ensures |r| <= |entries|
    ensures |r| == |entries| <==> forall k :: 0 <= k < |entries| ==> Detected(entries[k].1)
    ensures forall x :: x in r ==>
              && x.preyId == preyId
              && Detected(x.intensity)
              && x.sample == Classify(rules, x.sample.name)
              && (x.sample.name, x.intensity) in entries
    ensures forall k :: 0 <= k < |entries| && Detected(entries[k].1) ==>
              Interaction(Classify(rules, entries[k].0), preyId, entries[k].1) in r
    decreases |entries|
  {
    if entries == [] then []
    else
      var rest := GroupInteractions(rules, preyId, entries[1..]);
      assert forall k :: 1 <= k < |entries| ==> entries[1..][k - 1] == entries[k];
      var (name, value) := entries[0];
      if Detected(value) then [Interaction(Classify(rules, name), preyId, value)] + rest
      else rest
  }

  /** The interaction file's rows: group by group, each group's in iteration order. */
  function InteractionRows(rules: Rules, groups: seq<ProteinGroup>): (r: seq<Interaction>)
    ensures |r| <= TotalEntries(groups)
    ensures |r| == TotalEntries(groups) <==> AllDetected(groups)
    decreases |groups|
  {
    if groups == [] then []
    else
      var first := GroupInteractions(rules, PreyId(groups[0]), groups[0].intensities);
      var rest := InteractionRows(rules, groups[1..]);
      AllDetectedCons(groups);
      first + rest
  }

  /**
   The whole conversion. It fails when there is no protein group, since
   the samples are read from the first group; otherwise it yields the rows
   of the three files.
   */
  function Convert(groups: seq<ProteinGroup>, fasta: Option<LengthIndex>, rules: Rules): (r: Result<Tables, ConvertError>)
    ensures r.Failure? <==> groups == []
    ensures r.Success? ==>
              && |r.value.baits| == |groups[0].intensities|
              && forall k :: 0 <= k < |r.value.baits| ==>
                   r.value.baits[k] == Classify(rules, groups[0].intensities[k].0)
    ensures r.Success? ==>
              && |r.value.preys| == |groups|
              && forall k :: 0 <= k < |groups| ==>
                   && r.value.preys[k].id == PreyId(groups[k])
                   && r.value.preys[k].gene == Some(Gene(groups[k]))
                   && r.value.preys[k].length
                      == GroupLength(groups[k].proteinIds, fasta.GetOr([]), AverageLength(fasta, AllProteinIds(groups)))
    ensures r.Success? ==> r.value.interactions == InteractionRows(rules, groups)
  {
    if groups == [] then Failure(NoProteinGroups)
    else
      var lengths := fasta.GetOr([]);
      var average := AverageLength(fasta, AllProteinIds(groups));
      Success(Tables(
        BaitRows(rules, groups[0].intensities),
        PreyRows(groups, lengths, average),
        InteractionRows(rules, groups)))
  }

  /** Within a group, the interactions of two runs of columns are those of the first run followed by those of the second. */
  lemma {:induction false} GroupInteractionsConcat(rules: Rules, preyId: string, a: seq<(string, real)>, b: seq<(string, real)>)
    ensures GroupInteractions(rules, preyId, a + b)
         == GroupInteractions(rules, preyId, a) + GroupInteractions(rules, preyId, b)
    decreases |a|
  {
    if a == [] {
      assert a + b == b;
    } else {
      assert (a + b)[1..] == a[1..] + b;
      GroupInteractionsConcat(rules, preyId, a[1..], b);
    }
  }

  /** One more column adds its interaction at the end when its intensity is detected, and nothing otherwise. */
  lemma GroupInteractionsSnoc(rules: Rules, preyId: string, entries: seq<(string, real)>, name: string, value: real)
    ensures GroupInteractions(rules, preyId, entries + [(name, value)])
         == GroupInteractions(rules, preyId, entries)
            + (if Detected(value) then [Interaction(Classify(rules, name), preyId, value)] else [])
  {
    GroupInteractionsConcat(rules, preyId, entries, [(name, value)]);
    assert [(name, value)][1..] == [];
  }

  /** The interactions of the first `k + 1` columns: those of the first `k`, then column `k`'s if detected. */
  lemma GroupInteractionsStep(rules: Rules, preyId: string, entries: seq<(string, real)>, k: nat)
    requires k < |entries|
    ensures GroupInteractions(rules, preyId, entries[..k + 1])
         == GroupInteractions(rules, preyId, entries[..k])
            + (if Detected(entries[k].1) then [Interaction(Classify(rules, entries[k].0), preyId, entries[k].1)] else [])
  {
    assert entries[..k + 1] == entries[..k] + [(entries[k].0, entries[k].1)];
    GroupInteractionsSnoc(rules, preyId, entries[..k], entries[k].0, entries[k].1);
  }

  /** The interactions of two runs of groups are those of the first run followed by those of the second. */
  lemma {:induction false} InteractionRowsConcat(rules: Rules, a: seq<ProteinGroup>, b: seq<ProteinGroup>)
    ensures InteractionRows(rules, a + b) == InteractionRows(rules, a) + InteractionRows(rules, b)
    decreases |a|
  {
    if a == [] {
      assert a + b == b;
    } else {
      var first := GroupInteractions(rules, PreyId(a[0]), a[0].intensities);
      assert (a + b)[1..] == a[1..] + b;
      assert InteractionRows(rules, a + b) == first + InteractionRows(rules, a[1..] + b);
      InteractionRowsConcat(rules, a[1..], b);
    }
  }

  /** The interactions of the first `i + 1` groups are those of the first `i` followed by group `i`'s. */
  lemma InteractionRowsStep(rules: Rules, groups: seq<ProteinGroup>, i: nat)
    requires i < |groups|
    ensures InteractionRows(rules, groups[..i + 1])
         == InteractionRows(rules, groups[..i]) + GroupInteractions(rules, PreyId(groups[i]), groups[i].intensities)
  {
    assert groups[..i + 1] == groups[..i] + [groups[i]];
    InteractionRowsConcat(rules, groups[..i], [groups[i]]);
    assert InteractionRows(rules, [groups[i]])
        == GroupInteractions(rules, PreyId(groups[i]), groups[i].intensities) + InteractionRows(rules, []);
  }

  /** `x` is the interaction column `k` of `group` yields: a detected intensity with its classified sample. */
  ghost predicate IsRowOf(rules: Rules, group: ProteinGroup, k: int, x: Interaction) {
    && 0 <= k < |group.intensities|
    && Detected(group.intensities[k].1)
    && x == Interaction(Classify(rules, group.intensities[k].0), PreyId(group), group.intensities[k].1)
  }

  /**
   An interaction is written exactly when some group has a detected
   intensity in some column, and it then carries that column's classified
   sample, that group's prey key and that intensity.
   */
  lemma {:induction false} InteractionRowsMembers(rules: Rules, groups: seq<ProteinGroup>, x: Interaction)
    ensures x in InteractionRows(rules, groups) <==>
              exists i, k :: 0 <= i < |groups| && IsRowOf(rules, groups[i], k, x)
    decreases |groups|
  {
    if groups != [] {
      var g := groups[0];
      var rest := groups[1..];
      var first := GroupInteractions(rules, PreyId(g), g.intensities);
      assert InteractionRows(rules, groups) == first + InteractionRows(rules, rest);
      InteractionRowsMembers(rules, rest, x);
      if x in first {
        var k :| 0 <= k < |g.intensities| && g.intensities[k] == (x.sample.name, x.intensity);
        assert IsRowOf(rules, groups[0], k, x);
      }
      if x in InteractionRows(rules, rest) {
        var i, k :| 0 <= i < |rest| && IsRowOf(rules, rest[i], k, x);
        assert groups[i + 1] == rest[i];
        assert IsRowOf(rules, groups[i + 1], k, x);
      }
      if exists i, k :: 0 <= i < |groups| && IsRowOf(rules, groups[i], k, x) {
        var i, k :| 0 <= i < |groups| && IsRowOf(rules, groups[i], k, x);
        if i > 0 {
          assert rest[i - 1] == groups[i];
          assert IsRowOf(rules, rest[i - 1], k, x);
        }
      }
    }
  }

  /**
   Every interaction comes from a detected column of some group, and its
   prey key is the id of that same group's row in the prey file.
   */
  lemma InteractionPreysListed(groups: seq<ProteinGroup>, fasta: Option<LengthIndex>, rules: Rules)
    requires Convert(groups, fasta, rules).Success?
    ensures var tables := Convert(groups, fasta, rules).value;
            forall x :: x in tables.interactions ==>
              exists i, k :: 0 <= i < |tables.preys| && IsRowOf(rules, groups[i], k, x)
                             && x.preyId == tables.preys[i].id
  {
    var tables := Convert(groups, fasta, rules).value;
    forall x | x in tables.interactions
      ensures exists i, k :: 0 <= i < |tables.preys| && IsRowOf(rules, groups[i], k, x)
                             && x.preyId == tables.preys[i].id
    {
      InteractionRowsMembers(rules, groups, x);
      var i, k :| 0 <= i < |groups| && IsRowOf(rules, groups[i], k, x);
      assert x.preyId == tables.preys[i].id;
    }
  }

  /**
   A sample name that appears in both the bait file and the interaction
   file is reported with the same bait label and control flag in both.
   */
  lemma SamplesAgree(groups: seq<ProteinGroup>, fasta: Option<LengthIndex>, rules: Rules)
    requires Convert(groups, fasta, rules).Success?
    ensures var tables := Convert(groups, fasta, rules).value;
            forall b, x :: b in tables.baits && x in tables.interactions && b.name == x.sample.name ==>
              b == x.sample
  {
    var tables := Convert(groups, fasta, rules).value;
    forall b, x | b in tables.baits && x in tables.interactions && b.name == x.sample.name
      ensures b == x.sample
    {
      InteractionRowsMembers(rules, groups, x);
      var i, k :| 0 <= i < |groups| && IsRowOf(rules, groups[i], k, x);
      var j :| 0 <= j < |tables.baits| && tables.baits[j] == b;
    }
  }

  /** The bait-file loop: one `writeSample` per sample column of the first group. */
  method WriteBaitFile(rules: Rules, first: ProteinGroup, nl: string) returns (text: string)
    ensures text == BaitTable(BaitRows(rules, first.intensities), nl)
  {
    ghost var baits := BaitRows(rules, first.intensities);
    text := "";
    for k := 0 to |first.intensities|
      invariant text == BaitTable(baits[..k], nl)
    {
      var sample := Classify(rules, first.intensities[k].0);
      BaitFileStep(baits, k, text, nl);
      text := WriteSample(text, sample, nl);
    }
    assert baits[..|first.intensities|] == baits;
  }

  /** The prey-file loop: one `writePrey` per group. */
  method WritePreyFile(groups: seq<ProteinGroup>, lengths: seq<(string, nat)>, average: nat, nl: string)
    returns (text: string)
    ensures text == PreyTable(PreyRows(groups, lengths, average), nl)
  {
    ghost var preys := PreyRows(groups, lengths, average);
    text := "";
    for i := 0 to |groups|
      invariant text == PreyTable(preys[..i], nl)
    {
      var group := groups[i];
      var prey := PreyOf(group, lengths, average);
      PreyFileStep(preys, i, text, nl);
      text := WritePrey(text, prey, nl);
    }
    assert preys[..|groups|] == preys;
  }

  /** The inner interaction loop: the detected columns of one group, in iteration order. */
  method CollectGroupInteractions(rules: Rules, group: ProteinGroup) returns (rows: seq<Interaction>)
    ensures rows == GroupInteractions(rules, PreyId(group), group.intensities)
  {
    var preyId := PreyId(group);
    rows := [];
    for k := 0 to |group.intensities|
      invariant rows == GroupInteractions(rules, preyId, group.intensities[..k])
    {
      var (name, value) := group.intensities[k];
      GroupInteractionsStep(rules, preyId, group.intensities, k);
      if Abs(value) > Delta {
        rows := rows + [Interaction(Classify(rules, name), preyId, value)];
      }
    }
    assert group.intensities[..|group.intensities|] == group.intensities;
  }

  /** The outer interaction loop: group by group. */
  method CollectInteractions(rules: Rules, groups: seq<ProteinGroup>) returns (rows: seq<Interaction>)
    ensures rows == InteractionRows(rules, groups)
  {
    rows := [];
    for i := 0 to |groups|
      invariant rows == InteractionRows(rules, groups[..i])
    {
      var groupRows := CollectGroupInteractions(rules, groups[i]);
      InteractionRowsStep(rules, groups, i);
      rows := rows + groupRows;
    }
    assert groups[..|groups|] == groups;
  }

  /**
   The conversion as `convert` runs it: the bait file written sample by
   sample from the first group's columns, then the prey file group by
   group, then the interactions group by group and column by column.
   */
  method Run(groups: seq<ProteinGroup>, fasta: Option<LengthIndex>, rules: Rules, nl: string)
    returns (r: Result<Output, ConvertError>)
    ensures r.Failure? <==> groups == []
    ensures r.Success? ==>
              var tables := Convert(groups, fasta, rules).value;
              && r.value.baitFile == BaitTable(tables.baits, nl)
              && r.value.preyFile == PreyTable(tables.preys, nl)
              && r.value.interactions == tables.interactions
  {
    if |groups| == 0 {
      return Failure(NoProteinGroups);
    }
    var baitFile := WriteBaitFile(rules, groups[0], nl);
    var lengths := fasta.GetOr([]);
    var average := AverageLength(fasta, AllProteinIds(groups));
    var preyFile := WritePreyFile(groups, lengths, average, nl);
    var interactions := CollectInteractions(rules, groups);
    r := Success(Output(baitFile, preyFile, interactions));
  }
}
