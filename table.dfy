/**
 * The frequency table as a value: what aggregating the input lines produces, and
 * the read-only views of it that the tracker offers (case-insensitive lookup, the
 * full listing, the histogram and the backup text). The class in tracker.dfy
 * computes these views with loops; the functions here are their specifications,
 * and the lemmas beside each function state what it guarantees.
 */
module Table {

  import opened Wrappers
  import opened Text
  import opened Ordering
  import opened SeqFacts

  /** The count stored for `k`, or 0 (the value `operator[]` inserts) when absent. */
  function CountOf(m: map<string, int>, k: string): int {
    if k in m then m[k] else 0
  }

  // ---------------------------------------------------------------------------
  // Aggregation
  // ---------------------------------------------------------------------------

  /** The table the input lines should produce: each distinct line mapped to its number of occurrences. */
  ghost function Frequencies(lines: seq<string>): map<string, int> {
    map k | k in multiset(lines) && k != "" :: multiset(lines)[k]
  }

  /**
   * Exactly the non-empty lines become keys, each holding the number of lines
   * equal to it, which is at least 1; an empty line is never a key.
   */
  lemma FrequenciesExact(lines: seq<string>, k: string)
    ensures k in Frequencies(lines) <==> k != "" && k in lines
    ensures k in Frequencies(lines) ==> Frequencies(lines)[k] == multiset(lines)[k] >= 1
    ensures CountOf(Frequencies(lines), k) == if k == "" then 0 else multiset(lines)[k]
  {
  }

  /** Nothing read, nothing counted. */
  lemma FrequenciesEmpty()
    ensures Frequencies([]) == map[]
  {
  }

  /** The per-key sum of two tables; keys of either are kept. */
  ghost function Merge(a: map<string, int>, b: map<string, int>): map<string, int> {
    map k | k in a.Keys + b.Keys :: CountOf(a, k) + CountOf(b, k)
  }

  lemma MergeAt(a: map<string, int>, b: map<string, int>, k: string)
    ensures k in Merge(a, b) <==> k in a || k in b
    ensures CountOf(Merge(a, b), k) == CountOf(a, k) + CountOf(b, k)
  {
  }

  lemma MergeEmpty(b: map<string, int>)
    ensures Merge(map[], b) == b
  {
  }

  lemma MergeNothing(a: map<string, int>)
    ensures Merge(a, map[]) == a
  {
  }

  /** One more line: an empty one changes nothing, any other adds one to its own key. */
  lemma FrequenciesSnoc(lines: seq<string>, line: string)
    ensures Frequencies(lines + [line]) ==
      if line == "" then Frequencies(lines)
      else Frequencies(lines)[line := CountOf(Frequencies(lines), line) + 1]
  {
    assert multiset(lines + [line]) == multiset(lines) + multiset{line};
  }

  /** Adding one to a key of the second table of a merge adds one to the merge. */
  lemma MergeBump(a: map<string, int>, b: map<string, int>, k: string)
    ensures Merge(a, b[k := CountOf(b, k) + 1]) == Merge(a, b)[k := CountOf(Merge(a, b), k) + 1]
  {
    var l := Merge(a, b[k := CountOf(b, k) + 1]);
    var r := Merge(a, b)[k := CountOf(Merge(a, b), k) + 1];
    forall j
      ensures (j in l <==> j in r) && CountOf(l, j) == CountOf(r, j)
    {
      MergeAt(a, b[k := CountOf(b, k) + 1], j);
      MergeAt(a, b, j);
    }
    assert l.Keys == r.Keys;
    forall j | j in l
      ensures l[j] == r[j]
    {
      assert CountOf(l, j) == CountOf(r, j);
    }
  }

  /** One step of reading: line `i` bumps its own count in the running table, unless it is empty. */
  lemma ReadStep(base: map<string, int>, lines: seq<string>, i: nat, current: map<string, int>)
    requires i < |lines|
    requires current == Merge(base, Frequencies(lines[..i]))
    ensures Merge(base, Frequencies(lines[..i + 1])) ==
      if lines[i] == "" then current else current[lines[i] := CountOf(current, lines[i]) + 1]
  {
    PrefixSnoc(lines, i);
    FrequenciesSnoc(lines[..i], lines[i]);
    if lines[i] != "" {
      MergeBump(base, Frequencies(lines[..i]), lines[i]);
    }
  }

  /** The number of non-empty lines. */
  function NonEmptyCount(lines: seq<string>): nat
    decreases |lines|
  {
    if lines == [] then 0
    else NonEmptyCount(lines[..|lines| - 1]) + (if lines[|lines| - 1] != "" then 1 else 0)
  }

  /** The sum of all counts of a table. */
  ghost function TotalCount(m: map<string, int>): int
    decreases |m|
  {
    if m == map[] then 0
    else
      var k :| k in m;
      m[k] + TotalCount(m - {k})
  }

  lemma {:induction false} TotalCountRemove(m: map<string, int>, x: string)
    requires x in m
    ensures TotalCount(m) == m[x] + TotalCount(m - {x})
    decreases |m|
  {
    var k :| k in m && TotalCount(m) == m[k] + TotalCount(m - {k});
    if k != x {
      TotalCountRemove(m - {k}, x);
      TotalCountRemove(m - {x}, k);
      assert m - {k} - {x} == m - {x} - {k};
    }
  }

  lemma TotalCountUpdate(m: map<string, int>, k: string, v: int)
    ensures TotalCount(m[k := v]) == TotalCount(m) - CountOf(m, k) + v
  {
    TotalCountRemove(m[k := v], k);
    assert m[k := v] - {k} == m - {k};
    if k in m {
      TotalCountRemove(m, k);
    } else {
      assert m - {k} == m;
    }
  }

  /** The counts of the aggregated table add up to the number of non-empty lines. */
  lemma {:induction false} FrequenciesTotal(lines: seq<string>)
    ensures TotalCount(Frequencies(lines)) == NonEmptyCount(lines)
    decreases |lines|
  {
    if lines == [] {
      FrequenciesEmpty();
    } else {
      var init, last := lines[..|lines| - 1], lines[|lines| - 1];
      assert lines == init + [last];
      FrequenciesSnoc(init, last);
      FrequenciesTotal(init);
      if last != "" {
        TotalCountUpdate(Frequencies(init), last, CountOf(Frequencies(init), last) + 1);
      }
    }
  }

  // ---------------------------------------------------------------------------
  // Case-insensitive lookup
  // ---------------------------------------------------------------------------

  /** The first position whose lower-cased key equals `target`. */
  function FirstMatch(keys: seq<string>, target: string): (r: Option<nat>)
    ensures r.Some? ==> r.value < |keys| && Lower(keys[r.value]) == target
    ensures r.Some? ==> forall j :: 0 <= j < r.value ==> Lower(keys[j]) != target
    ensures r.None? ==> forall j :: 0 <= j < |keys| ==> Lower(keys[j]) != target
    decreases |keys|
  {
    if keys == [] then None
    else if Lower(keys[0]) == target then Some(0)
    else
      match FirstMatch(keys[1..], target)
      case None => None
      case Some(i) => Some(i + 1)
  }

  /** In an ascending sequence, everything smaller than `s[i]` stands before `i`. */
  lemma AscendingBefore(s: seq<string>, i: nat)
    requires Ascending(s) && i < |s|
    ensures forall k :: k in s && Less(k, s[i]) ==> exists j :: 0 <= j < i && s[j] == k
  {
    forall k | k in s && Less(k, s[i])
      ensures exists j :: 0 <= j < i && s[j] == k
    {
      var j :| 0 <= j < |s| && s[j] == k;
      if j == i {
        LessIrreflexive(k);
      } else if j > i {
        LessAsymmetric(s[i], s[j]);
      }
    }
  }

  /** `searchItemFrequency`: the first entry, in key order, whose key matches the query up to case. */
  function Lookup(m: map<string, int>, query: string): Option<(string, int)> {
    var keys := SortedKeys(m.Keys);
    match FirstMatch(keys, Lower(query))
    case None => None
    case Some(i) => Some((keys[i], m[keys[i]]))
  }

  /**
   * Lookup reports not-found exactly when no key matches the query up to case;
   * otherwise it returns a matching key with its count, and no smaller key matches.
   */
  lemma LookupFirstMatch(m: map<string, int>, query: string)
    ensures Lookup(m, query).None? <==> forall k :: k in m ==> Lower(k) != Lower(query)
    ensures Lookup(m, query).Some? ==>
      var (key, count) := Lookup(m, query).value;
      && key in m && count == m[key] && Lower(key) == Lower(query)
      && forall k :: k in m && Less(k, key) ==> Lower(k) != Lower(query)
  {
    var keys := SortedKeys(m.Keys);
    match FirstMatch(keys, Lower(query))
    case None =>
      forall k | k in m
        ensures Lower(k) != Lower(query)
      {
        var j :| 0 <= j < |keys| && keys[j] == k;
      }
    case Some(i) =>
      AscendingBefore(keys, i);
  }

  /** The query is normalised first, so a query and its lower-cased form agree. */
  lemma LookupNormalised(m: map<string, int>, query: string)
    ensures Lookup(m, query) == Lookup(m, Lower(query))
  {
    LowerIdempotent(query);
  }

  /** With no other key equal to `k` up to case, every case variant of `k` finds `k`. */
  lemma LookupUnambiguous(m: map<string, int>, k: string, query: string)
    requires k in m && Lower(query) == Lower(k)
    requires forall j :: j in m && Lower(j) == Lower(k) ==> j == k
    ensures Lookup(m, query) == Some((k, m[k]))
  {
    LookupFirstMatch(m, query);
  }

  // ---------------------------------------------------------------------------
  // Listing and histogram
  // ---------------------------------------------------------------------------

  /** `displayAllFrequencies`: the entries in key order. */
  function Entries(m: map<string, int>): (r: seq<(string, int)>)
    ensures |r| == |m|
  {
    var keys := SortedKeys(m.Keys);
    seq(|keys|, i requires 0 <= i < |keys| => (keys[i], m[keys[i]]))
  }

  /** Every entry of the table is listed once, with its count, in ascending key order. */
  lemma EntriesInKeyOrder(m: map<string, int>)
    ensures |Entries(m)| == |m|
    ensures forall i :: 0 <= i < |m| ==> Entries(m)[i].0 in m && Entries(m)[i].1 == m[Entries(m)[i].0]
    ensures forall i, j :: 0 <= i < j < |m| ==> Less(Entries(m)[i].0, Entries(m)[j].0)
    ensures forall k :: k in m ==> exists i :: 0 <= i < |m| && Entries(m)[i] == (k, m[k])
  {
    var keys := SortedKeys(m.Keys);
    var r := Entries(m);
    forall k | k in m
      ensures exists i :: 0 <= i < |r| && r[i] == (k, m[k])
    {
      var i :| 0 <= i < |keys| && keys[i] == k;
      assert r[i] == (k, m[k]);
    }
  }

  /** `count` asterisks; the source's counting loop writes none for a count below 1. */
  function Stars(count: int): (s: string)
    ensures |s| == if count < 0 then 0 else count
    ensures forall i :: 0 <= i < |s| ==> s[i] == '*'
  {
    seq(if count < 0 then 0 else count, _ => '*')
  }

  lemma StarsSnoc(n: nat)
    ensures Stars(n + 1) == Stars(n) + "*"
  {
  }

  /** `displayHistogram`: each entry alongside its bar of marks. */
  function Histogram(m: map<string, int>): (r: seq<(string, string)>)
    ensures |r| == |m|
  {
    var es := Entries(m);
    seq(|es|, i requires 0 <= i < |es| => (es[i].0, Stars(es[i].1)))
  }

  /**
   * One row per entry, in the listing's order, each bar holding one '*' per unit
   * of the entry's count.
   */
  lemma HistogramRows(m: map<string, int>)
    ensures |Histogram(m)| == |Entries(m)|
    ensures forall i :: 0 <= i < |m| ==> Histogram(m)[i].0 == Entries(m)[i].0
    ensures forall i :: 0 <= i < |m| ==> |Histogram(m)[i].1| == Entries(m)[i].1 >= 0 || (Entries(m)[i].1 < 0 && Histogram(m)[i].1 == "")
    ensures forall i, j :: 0 <= i < |m| && 0 <= j < |Histogram(m)[i].1| ==> Histogram(m)[i].1[j] == '*'
  {
  }

  // ---------------------------------------------------------------------------
  // Backup text and its reader
  // ---------------------------------------------------------------------------

  /** For a table whose counts are not negative, each bar's length is its own key's count. */
  lemma HistogramCounts(m: map<string, int>)
    requires forall k :: k in m ==> m[k] >= 0
    ensures |Histogram(m)| == |m|
    ensures forall i :: 0 <= i < |m| ==> Histogram(m)[i].0 in m && |Histogram(m)[i].1| == m[Histogram(m)[i].0]
  {
    HistogramRows(m);
    EntriesInKeyOrder(m);
  }

  /** One line of the backup: the key, a space, the count in decimal. */
  function BackupLine(key: string, count: int): string {
    key + " " + IntString(count)
  }

  /** The lines written for a sequence of entries, in order. */
  function Render(es: seq<(string, int)>): (r: seq<string>)
    ensures |r| == |es|
  {
    seq(|es|, i requires 0 <= i < |es| => BackupLine(es[i].0, es[i].1))
  }

  /** `createBackupFile`: one `"<key> <count>"` line per entry, in listing order. */
  function BackupLines(m: map<string, int>): (r: seq<string>)
    ensures |r| == |m|
  {
    Render(Entries(m))
  }

  /** Position `i` of the listing, in terms of the key order. */
  lemma EntryAt(m: map<string, int>, i: nat)
    requires i < |m|
    ensures |SortedKeys(m.Keys)| == |m| && SortedKeys(m.Keys)[i] in m
    ensures Entries(m)[i] == (SortedKeys(m.Keys)[i], m[SortedKeys(m.Keys)[i]])
  {
  }

  /** Position `i` of the histogram, in terms of the key order. */
  lemma HistogramAt(m: map<string, int>, i: nat)
    requires i < |m|
    ensures |SortedKeys(m.Keys)| == |m| && SortedKeys(m.Keys)[i] in m
    ensures Histogram(m)[i] == (SortedKeys(m.Keys)[i], Stars(m[SortedKeys(m.Keys)[i]]))
  {
    EntryAt(m, i);
  }

  /** Position `i` of the backup, in terms of the key order. */
  lemma BackupLineAt(m: map<string, int>, i: nat)
    requires i < |m|
    ensures |SortedKeys(m.Keys)| == |m| && SortedKeys(m.Keys)[i] in m
    ensures BackupLines(m)[i] == BackupLine(SortedKeys(m.Keys)[i], m[SortedKeys(m.Keys)[i]])
  {
    EntryAt(m, i);
  }

  /** The last position of `c` in `s`. */
  function LastIndexOf(s: string, c: char): (r: Option<nat>)
    ensures r.Some? ==> r.value < |s| && s[r.value] == c
    ensures r.Some? ==> forall j :: r.value < j < |s| ==> s[j] != c
    ensures r.None? ==> forall j :: 0 <= j < |s| ==> s[j] != c
    decreases |s|
  {
    if s == [] then None
    else if s[|s| - 1] == c then Some(|s| - 1)
    else LastIndexOf(s[..|s| - 1], c)
  }

  /**
   * Reads one backup line back into an entry: the count is what follows the last
   * space, so a key that itself contains spaces is read back whole.
   */
  function ParseLine(line: string): Option<(string, int)> {
    match LastIndexOf(line, ' ')
    case None => None
    case Some(p) =>
      match ParseInt(line[p + 1..])
      case None => None
      case Some(n) => Some((line[..p], n))
  }

  /** Every backup line reads back as the entry it was written from, whatever the key. */
  lemma ParseBackupLine(key: string, count: int)
    ensures ParseLine(BackupLine(key, count)) == Some((key, count))
  {
    var line := BackupLine(key, count);
    var digits := IntString(count);
    assert line[|key|] == ' ';
    assert forall j :: |key| < j < |line| ==> line[j] == digits[j - |key| - 1];
    var p := LastIndexOf(line, ' ');
    assert p == Some(|key|);
    assert line[|key| + 1..] == digits;
    assert line[..|key|] == key;
    IntStringRoundTrip(count);
  }

  /** Reads every line into an entry; None as soon as one line is not an entry. */
  function ParseEntries(lines: seq<string>): (r: Option<seq<(string, int)>>)
    ensures r.Some? ==> |r.value| == |lines|
    ensures r.Some? ==> forall i :: 0 <= i < |lines| ==> ParseLine(lines[i]) == Some(r.value[i])
    ensures r.None? ==> exists i :: 0 <= i < |lines| && ParseLine(lines[i]).None?
    decreases |lines|
  {
    if lines == [] then Some([])
    else
      match ParseLine(lines[0])
      case None => None
      case Some(e) =>
        match ParseEntries(lines[1..])
        case None => None
        case Some(rest) => Some([e] + rest)
  }

  /** The keys named by a sequence of entries. */
  function KeySet(es: seq<(string, int)>): set<string>
    decreases |es|
  {
    if es == [] then {} else KeySet(es[..|es| - 1]) + {es[|es| - 1].0}
  }

  lemma {:induction false} KeySetMembers(es: seq<(string, int)>)
    ensures forall i :: 0 <= i < |es| ==> es[i].0 in KeySet(es)
    ensures forall k :: k in KeySet(es) ==> exists i :: 0 <= i < |es| && es[i].0 == k
    decreases |es|
  {
    if es != [] {
      var init := es[..|es| - 1];
      KeySetMembers(init);
      assert forall i :: 0 <= i < |init| ==> init[i] == es[i];
    }
  }

  /** No entry after position `i` has the same key. */
  predicate LastFor(es: seq<(string, int)>, i: nat)
    requires i < |es|
  {
    forall j :: i < j < |es| ==> es[j].0 != es[i].0
  }

  /** The table a sequence of entries describes; a later entry for a key wins. */
  function ToMap(es: seq<(string, int)>): (m: map<string, int>)
    ensures m.Keys == KeySet(es)
    ensures forall i :: 0 <= i < |es| && LastFor(es, i) ==> es[i].0 in m && m[es[i].0] == es[i].1
    decreases |es|
  {
    if es == [] then map[]
    else
      var init := ToMap(es[..|es| - 1]);
      assert forall i :: 0 <= i < |es| - 1 ==> es[..|es| - 1][i] == es[i];
      assert forall i :: 0 <= i < |es| - 1 && LastFor(es, i) ==> LastFor(es[..|es| - 1], i);
      init[es[|es| - 1].0 := es[|es| - 1].1]
  }

  /** Reads a whole backup back into a table. */
  function ParseBackup(lines: seq<string>): Option<map<string, int>> {
    match ParseEntries(lines)
    case None => None
    case Some(es) => Some(ToMap(es))
  }

  /** Every rendered sequence of entries reads back as itself. */
  lemma ParseEntriesRender(es: seq<(string, int)>)
    ensures ParseEntries(Render(es)) == Some(es)
  {
    var lines := Render(es);
    forall i | 0 <= i < |es|
      ensures ParseLine(lines[i]) == Some(es[i])
    {
      ParseBackupLine(es[i].0, es[i].1);
    }
    var parsed := ParseEntries(lines);
    assert parsed.Some?;
    assert parsed.value == es;
  }

  /** Entries with distinct keys that agree with `m` and name exactly its keys describe `m`. */
  lemma ToMapCovering(es: seq<(string, int)>, m: map<string, int>)
    requires KeySet(es) == m.Keys
    requires forall i :: 0 <= i < |es| ==> es[i].0 in m && es[i].1 == m[es[i].0]
    requires forall i, j :: 0 <= i < j < |es| ==> es[i].0 != es[j].0
    ensures ToMap(es) == m
  {
    var back := ToMap(es);
    forall k | k in back
      ensures back[k] == m[k]
    {
      KeySetMembers(es);
      var i :| 0 <= i < |es| && es[i].0 == k;
      assert LastFor(es, i);
    }
  }

  /** The listing names exactly the keys of the table. */
  lemma EntriesKeySet(m: map<string, int>)
    ensures KeySet(Entries(m)) == m.Keys
  {
    var es := Entries(m);
    KeySetMembers(es);
    forall k
      ensures k in KeySet(es) <==> k in m
    {
      if k in m {
        EntriesInKeyOrder(m);
        var i :| 0 <= i < |es| && es[i] == (k, m[k]);
      }
      if k in KeySet(es) {
        var i :| 0 <= i < |es| && es[i].0 == k;
        EntryAt(m, i);
      }
    }
  }

  /** The listing describes the table it was taken from. */
  lemma ToMapEntries(m: map<string, int>)
    ensures ToMap(Entries(m)) == m
  {
    var es := Entries(m);
    EntriesKeySet(m);
    EntriesInKeyOrder(m);
    forall i, j | 0 <= i < j < |es|
      ensures es[i].0 != es[j].0
    {
      if es[i].0 == es[j].0 {
        LessIrreflexive(es[i].0);
      }
    }
    ToMapCovering(es, m);
  }

  /** Reading the backup back reproduces the table exactly. */
  lemma BackupRoundTrip(m: map<string, int>)
    ensures ParseBackup(BackupLines(m)) == Some(m)
  {
    ParseEntriesRender(Entries(m));
    ToMapEntries(m);
  }
}
