/**
 * The `ItemTracker` class: a frequency table filled once from the input lines,
 * backed up once, and then only read by the menu's queries.
 */
module Tracker {

  import opened Wrappers
  import opened SeqFacts
  import opened Text
  import opened Ordering
  import opened Table

  class ItemTracker {
    /** Item name, exactly as it appeared in the input, to its number of lines. */
    var itemFrequency: map<string, int>
    /** The lines the constructor wrote to the backup file; None when it could not be created. */
    var backupFile: Option<seq<string>>

    /** A key exists only if a non-empty line carried it, so every count is at least 1. */
    ghost predicate Valid()
      reads this
    {
      forall k :: k in itemFrequency ==> k != "" && itemFrequency[k] >= 1
    }

    /**
     * Reads the input (None when the file cannot be opened, which leaves the table
     * empty) and then writes the backup (`sinkOpen` false when it cannot be created).
     */
    constructor (input: Option<seq<string>>, sinkOpen: bool)
      ensures Valid()
      ensures input.None? ==> itemFrequency == map[]
      ensures input.Some? ==> itemFrequency == Frequencies(input.value)
      ensures backupFile == if sinkOpen then Some(BackupLines(itemFrequency)) else None
    {
      itemFrequency := map[];
      backupFile := None;
      new;
      ReadInputFile(input);
      if input.Some? {
        MergeEmpty(Frequencies(input.value));
        forall k | k in itemFrequency
          ensures k != "" && itemFrequency[k] >= 1
        {
          FrequenciesExact(input.value, k);
        }
      }
      backupFile := CreateBackupFile(sinkOpen);
    }

    /** Adds one to the count of every non-empty line, in input order. */
    method ReadInputFile(input: Option<seq<string>>)
      modifies this`itemFrequency
      ensures input.None? ==> itemFrequency == old(itemFrequency)
      ensures input.Some? ==> itemFrequency == Merge(old(itemFrequency), Frequencies(input.value))
    {
      if input.None? {
        return;
      }
      var lines := input.value;
      ghost var base := itemFrequency;
      assert lines[..0] == [];
      FrequenciesEmpty();
      MergeNothing(base);
      var i := 0;
      while i < |lines|
        invariant 0 <= i <= |lines|
        invariant itemFrequency == Merge(base, Frequencies(lines[..i]))
      {
        var item := lines[i];
        ReadStep(base, lines, i, itemFrequency);
        if item != "" {
          // `itemFrequency[item]++` inserts 0 for a new key before adding one.
          itemFrequency := itemFrequency[item := CountOf(itemFrequency, item) + 1];
        }
        i := i + 1;
      }
      PrefixAll(lines);
    }

    /** Writes one line per entry in key order; None when the backup file cannot be created. */
    method CreateBackupFile(sinkOpen: bool) returns (written: Option<seq<string>>)
      ensures written == if sinkOpen then Some(BackupLines(itemFrequency)) else None
    {
      if !sinkOpen {
        return None;
      }
      var keys := SortedKeys(itemFrequency.Keys);
      var lines: seq<string> := [];
      var i := 0;
      while i < |keys|
        invariant 0 <= i <= |keys|
        invariant lines == BackupLines(itemFrequency)[..i]
      {
        BackupLineAt(itemFrequency, i);
        PrefixSnoc(BackupLines(itemFrequency), i);
        lines := lines + [BackupLine(keys[i], itemFrequency[keys[i]])];
        i := i + 1;
      }
      PrefixAll(BackupLines(itemFrequency));
      written := Some(lines);
    }

    /**
     * Lower-cases the search term and every key, and stops at the first key, in
     * key order, that then equals the term; None is the "not found" report.
     */
    method SearchItemFrequency(searchItem: string) returns (result: Option<(string, int)>)
      ensures result == Lookup(itemFrequency, searchItem)
    {
      var target := Lower(searchItem);
      var keys := SortedKeys(itemFrequency.Keys);
      result := None;
      var i := 0;
      while i < |keys|
        invariant 0 <= i <= |keys|
        invariant result == None
        invariant forall j :: 0 <= j < i ==> Lower(keys[j]) != target
      {
        var itemName := Lower(keys[i]);
        if itemName == target {
          result := Some((keys[i], itemFrequency[keys[i]]));
          break;
        }
        i := i + 1;
      }
    }

    /** Every entry with its count, in key order. */
    method DisplayAllFrequencies() returns (rows: seq<(string, int)>)
      ensures rows == Entries(itemFrequency)
    {
      var keys := SortedKeys(itemFrequency.Keys);
      rows := [];
      var i := 0;
      while i < |keys|
        invariant 0 <= i <= |keys|
        invariant rows == Entries(itemFrequency)[..i]
      {
        EntryAt(itemFrequency, i);
        PrefixSnoc(Entries(itemFrequency), i);
        rows := rows + [(keys[i], itemFrequency[keys[i]])];
        i := i + 1;
      }
    }

    /** Every entry in key order with one asterisk per unit of its count. */
    method DisplayHistogram() returns (rows: seq<(string, string)>)
      requires Valid()
      ensures rows == Histogram(itemFrequency)
      ensures |rows| == |itemFrequency|
      ensures forall i :: 0 <= i < |rows| ==> rows[i].0 in itemFrequency && |rows[i].1| == itemFrequency[rows[i].0]
    {
      ghost var chart := Histogram(itemFrequency);
      var keys := SortedKeys(itemFrequency.Keys);
      rows := [];
      var i := 0;
      while i < |keys|
        invariant 0 <= i <= |keys|
        invariant rows == chart[..i]
      {
        var bar := StarBar(itemFrequency[keys[i]]);
        HistogramAt(itemFrequency, i);
        PrefixSnoc(chart, i);
        rows := rows + [(keys[i], bar)];
        i := i + 1;
      }
      PrefixAll(chart);
      HistogramCounts(itemFrequency);
    }

    /** The inner loop of the histogram: one asterisk per unit of `count`, none when it is not positive. */
    static method StarBar(count: int) returns (bar: string)
      ensures bar == Stars(count)
    {
      bar := "";
      var n := 0;
      while n < count
        invariant 0 <= n && (n == 0 || n <= count)
        invariant bar == Stars(n)
      {
        StarsSnoc(n);
        bar := bar + "*";
        n := n + 1;
      }
    }

    /** The menu accepts exactly the choices 1 to 4. */
    static predicate IsValidChoice(choice: int): (b: bool)
      ensures b <==> choice == 1 || choice == 2 || choice == 3 || choice == 4
    {
      choice >= 1 && choice <= 4
    }

    /** The number of distinct items: as many as the listing has rows and the backup has lines. */
    function GetTotalItems(): (n: int)
      reads this
      ensures n == |Entries(itemFrequency)| && n == |BackupLines(itemFrequency)|
    {
      |itemFrequency|
    }
  }
}
