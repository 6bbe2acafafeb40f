/**
 The SAINT input records and the two line writers of the `saint` package,
 `SaintBaitWriter.writeSample` and `SaintPreyWriter.writePrey`.

 A `java.io.Writer` is modelled by the text written to it so far: a write
 appends to that text. `nl` stands for the platform line separator
 (`System.getProperty("line.separator")`), which the model takes as a
 parameter.
 */
module Saint {
  import opened Wrappers
  import opened Text

  /** The field separator of every SAINT table. */
  const Tab: char := '\t'

  /** A sample column: its name, its bait label (possibly `null`) and whether it is a control. */
  datatype Sample = Sample(name: string, bait: Option<string>, control: bool)

  /** A prey: the protein-group key, its length in residues and its gene names (possibly `null`). */
  datatype Prey = Prey(id: string, length: int, gene: Option<string>)

  /** One detected (sample, prey) pair and its intensity. */
  datatype Interaction = Interaction(sample: Sample, preyId: string, intensity: real)

  /** `Objects.toString(value, "")`: `null` is written as the empty string. */
  function OrEmpty(value: Option<string>): (r: string)
    ensures value.None? ==> r == ""
    ensures value.Some? ==> r == value.value
  {
    value.GetOr("")
  }

  /** The SAINT type column: `C` for a control, `T` for a test sample. */
  function TypeCode(control: bool): (r: string)
    ensures r == "C" || r == "T"
    ensures r == "C" <==> control
  {
    if control then "C" else "T"
  }

  /** The text `writeSample` sends to the writer for one sample. */
  function BaitLine(sample: Sample, nl: string): (r: string)
    ensures |r| == |sample.name| + |OrEmpty(sample.bait)| + 3 + |nl|
    ensures r[..|sample.name|] == sample.name && r[|sample.name|] == Tab
    ensures r[|r| - |nl|..] == nl
    ensures r[|r| - |nl| - 2] == Tab
    ensures r[|r| - |nl| - 1] == (if sample.control then 'C' else 'T')
  {
    sample.name + [Tab] + OrEmpty(sample.bait) + [Tab] + TypeCode(sample.control) + nl
  }

  /** The text `writePrey` sends to the writer for one prey. */
  function PreyLine(prey: Prey, nl: string): (r: string)
    ensures |r| == |prey.id| + |IntToDecimal(prey.length)| + |OrEmpty(prey.gene)| + 2 + |nl|
    ensures r[..|prey.id|] == prey.id && r[|prey.id|] == Tab
    ensures r[|r| - |nl|..] == nl
  {
    prey.id + [Tab] + IntToDecimal(prey.length) + [Tab] + OrEmpty(prey.gene) + nl
  }

  /** The line without its terminating separator, cut at every tab. */
  function Fields(line: string, nl: string): seq<string>
    requires |line| >= |nl|
  {
    Split(line[..|line| - |nl|], Tab)
  }

  /**
   A bait line reads back as exactly three fields — the name, the bait
   label (`""` for `null`) and `C`/`T` — when neither text field holds a tab.
   */
  lemma BaitLineFields(sample: Sample, nl: string)
    requires Tab !in sample.name && Tab !in OrEmpty(sample.bait)
    ensures Fields(BaitLine(sample, nl), nl)
         == [sample.name, if sample.bait.Some? then sample.bait.value else "", TypeCode(sample.control)]
  {
    var parts := [sample.name, OrEmpty(sample.bait), TypeCode(sample.control)];
    var line := BaitLine(sample, nl);
    assert line[..|line| - |nl|] == Join(parts, [Tab]);
    SplitJoin(parts, Tab);
  }

  /**
   A prey line reads back as exactly three fields — the id, the length in
   decimal and the gene names (`""` for `null`) — when neither text field
   holds a tab; the length field parses back to the prey's length.
   */
  lemma PreyLineFields(prey: Prey, nl: string)
    requires Tab !in prey.id && Tab !in OrEmpty(prey.gene)
    ensures Fields(PreyLine(prey, nl), nl)
         == [prey.id, IntToDecimal(prey.length), if prey.gene.Some? then prey.gene.value else ""]
    ensures ParseDecimal(Fields(PreyLine(prey, nl), nl)[1]) == Some(prey.length)
  {
    var length := IntToDecimal(prey.length);
    var parts := [prey.id, length, OrEmpty(prey.gene)];
    var line := PreyLine(prey, nl);
    assert line[..|line| - |nl|] == Join(parts, [Tab]);
    assert Tab !in length by {
      if prey.length < 0 {
        assert length == [length[0]] + length[1..];
      }
    }
    SplitJoin(parts, Tab);
    DecimalRoundTrip(prey.length);
  }

  /**
   Successive writes to a writer that already holds `out`, the k-th
   writing `line(items[k])`: earlier output is never altered.
   */
  function WriteAll<T>(out: string, items: seq<T>, line: T -> string): (r: string)
    ensures |r| >= |out| && r[..|out|] == out
    decreases |items|
  {
    if items == [] then out else WriteAll(out + line(items[0]), items[1..], line)
  }

  /** The lines of `items`, one after another. */
  function Lines<T>(items: seq<T>, line: T -> string): string
    decreases |items|
  {
    if items == [] then "" else line(items[0]) + Lines(items[1..], line)
  }

  /** Writing items one after another leaves `out` in front of their lines, in order. */
  lemma {:induction false} WriteAllAppends<T>(out: string, items: seq<T>, line: T -> string)
    ensures WriteAll(out, items, line) == out + Lines(items, line)
    decreases |items|
  {
    if items != [] {
      var first := line(items[0]);
      var rest := Lines(items[1..], line);
      calc {
        WriteAll(out, items, line);
        WriteAll(out + first, items[1..], line);
        { WriteAllAppends(out + first, items[1..], line); }
        (out + first) + rest;
        out + (first + rest);
      }
    }
  }

  /** The lines of two runs of items are the lines of the first run followed by those of the second. */
  lemma {:induction false} LinesConcat<T>(a: seq<T>, b: seq<T>, line: T -> string)
    ensures Lines(a + b, line) == Lines(a, line) + Lines(b, line)
    decreases |a|
  {
    if a == [] {
      assert a + b == b;
    } else {
      assert (a + b)[1..] == a[1..] + b;
      LinesConcat(a[1..], b, line);
    }
  }

  /** After the lines of the first `i` items, writing item `i` yields the lines of the first `i + 1`. */
  lemma LinesStep<T>(items: seq<T>, i: nat, text: string, line: T -> string)
    requires i < |items|
    requires text == Lines(items[..i], line)
    ensures text + line(items[i]) == Lines(items[..i + 1], line)
  {
    var prefix := items[..i];
    assert items[..i + 1] == prefix + [items[i]];
    LinesConcat(prefix, [items[i]], line);
    assert Lines([items[i]], line) == line(items[i]) + Lines([], line);
  }

  /** `writeSample` as a line-producing function, for a fixed line separator. */
  function BaitLineOf(nl: string): Sample -> string {
    sample => BaitLine(sample, nl)
  }

  /** `writePrey` as a line-producing function, for a fixed line separator. */
  function PreyLineOf(nl: string): Prey -> string {
    prey => PreyLine(prey, nl)
  }

  /**
   One `writeSample` call: earlier text is kept, and what it appends reads
   back as the sample's three fields when no text field holds a tab.
   */
  function WriteSample(out: string, sample: Sample, nl: string): (r: string)
    ensures |r| > |out| && r[..|out|] == out
    ensures r[|out|..] == BaitLine(sample, nl)
    ensures Tab !in sample.name && Tab !in OrEmpty(sample.bait) ==>
              Fields(r[|out|..], nl) == [sample.name, OrEmpty(sample.bait), TypeCode(sample.control)]
  {
    var line := BaitLine(sample, nl);
    assert Tab !in sample.name && Tab !in OrEmpty(sample.bait) ==>
             Fields(line, nl) == [sample.name, OrEmpty(sample.bait), TypeCode(sample.control)] by {
      if Tab !in sample.name && Tab !in OrEmpty(sample.bait) {
        BaitLineFields(sample, nl);
      }
    }
    out + line
  }

  /**
   One `writePrey` call: earlier text is kept, and what it appends reads
   back as the prey's three fields, the length parsing back to the prey's
   length, when no text field holds a tab.
   */
  function WritePrey(out: string, prey: Prey, nl: string): (r: string)
    ensures |r| > |out| && r[..|out|] == out
    ensures r[|out|..] == PreyLine(prey, nl)
    ensures Tab !in prey.id && Tab !in OrEmpty(prey.gene) ==>
              Fields(r[|out|..], nl) == [prey.id, IntToDecimal(prey.length), OrEmpty(prey.gene)]
              && ParseDecimal(Fields(r[|out|..], nl)[1]) == Some(prey.length)
  {
    var line := PreyLine(prey, nl);
    assert Tab !in prey.id && Tab !in OrEmpty(prey.gene) ==>
             Fields(line, nl) == [prey.id, IntToDecimal(prey.length), OrEmpty(prey.gene)]
             && ParseDecimal(Fields(line, nl)[1]) == Some(prey.length) by {
      if Tab !in prey.id && Tab !in OrEmpty(prey.gene) {
        PreyLineFields(prey, nl);
      }
    }
    out + line
  }

  /** The bait file: one line per sample, in order. */
  function BaitTable(samples: seq<Sample>, nl: string): string {
    Lines(samples, BaitLineOf(nl))
  }

  /** The prey file: one line per prey, in order. */
  function PreyTable(preys: seq<Prey>, nl: string): string {
    Lines(preys, PreyLineOf(nl))
  }

  /** Successive `writeSample` calls leave the earlier text followed by the sample lines in call order. */
  lemma WriteSamplesAppends(out: string, samples: seq<Sample>, nl: string)
    ensures WriteAll(out, samples, BaitLineOf(nl)) == out + BaitTable(samples, nl)
  {
    WriteAllAppends(out, samples, BaitLineOf(nl));
  }

  /** Successive `writePrey` calls leave the earlier text followed by the prey lines in call order. */
  lemma WritePreysAppends(out: string, preys: seq<Prey>, nl: string)
    ensures WriteAll(out, preys, PreyLineOf(nl)) == out + PreyTable(preys, nl)
  {
    WriteAllAppends(out, preys, PreyLineOf(nl));
  }

  /** After the first `i` samples, one more `writeSample` call yields the file of the first `i + 1`. */
  lemma BaitFileStep(samples: seq<Sample>, i: nat, text: string, nl: string)
    requires i < |samples|
    requires text == BaitTable(samples[..i], nl)
    ensures WriteSample(text, samples[i], nl) == BaitTable(samples[..i + 1], nl)
  {
    LinesStep(samples, i, text, BaitLineOf(nl));
  }

  /** After the first `i` preys, one more `writePrey` call yields the file of the first `i + 1`. */
  lemma PreyFileStep(preys: seq<Prey>, i: nat, text: string, nl: string)
    requires i < |preys|
    requires text == PreyTable(preys[..i], nl)
    ensures WritePrey(text, preys[i], nl) == PreyTable(preys[..i + 1], nl)
  {
    LinesStep(preys, i, text, PreyLineOf(nl));
  }
}
