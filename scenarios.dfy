/**
 * A worked example on a small input, checked against the general definitions:
 * three distinct keys that differ only in case or spelling. "Apple" sorts before
 * "apple" because 'A' has the smaller code, so a search for "APPLE" finds "Apple".
 */
module Scenarios {

  import opened Wrappers
  import opened Text
  import opened Ordering
  import opened Table

  function AppleTable(): map<string, int> {
    map["Apple" := 2, "apple" := 1, "banana" := 1]
  }

  lemma AppleFrequencies()
    ensures Frequencies(["Apple", "banana", "apple", "Apple"]) == AppleTable()
  {
    var lines := ["Apple", "banana", "apple", "Apple"];
    assert "Apple" != "apple" && "Apple" != "banana" && "apple" != "banana";
    assert multiset(lines) == multiset{"Apple", "Apple", "apple", "banana"};
    FrequenciesExact(lines, "Apple");
    FrequenciesExact(lines, "apple");
    FrequenciesExact(lines, "banana");
  }

  lemma AppleOrder()
    ensures SortedKeys(AppleTable().Keys) == ["Apple", "apple", "banana"]
  {
    var order := ["Apple", "apple", "banana"];
    assert Less("Apple", "apple") && Less("apple", "banana") && Less("Apple", "banana");
    AscendingUnique(AppleTable().Keys, order);
  }

  lemma AppleListing()
    ensures Entries(AppleTable()) == [("Apple", 2), ("apple", 1), ("banana", 1)]
  {
    var m := AppleTable();
    AppleOrder();
    assert |m| == |SortedKeys(m.Keys)| == 3;
    EntryAt(m, 0);
    EntryAt(m, 1);
    EntryAt(m, 2);
  }

  lemma AppleLookup()
    ensures Lookup(AppleTable(), "APPLE") == Some(("Apple", 2))
  {
    AppleOrder();
    AppleLowers();
    assert FirstMatch(["Apple", "apple", "banana"], "apple") == Some(0);
  }

  lemma AppleLowers()
    ensures Lower("APPLE") == "apple" && Lower("Apple") == "apple"
  {
    assert Lower("APPLE") == "apple";
    assert Lower("Apple") == "apple";
  }

  lemma AppleBackup()
    ensures BackupLines(AppleTable()) == ["Apple 2", "apple 1", "banana 1"]
  {
    var m := AppleTable();
    AppleOrder();
    assert |m| == |SortedKeys(m.Keys)| == 3;
    AppleBackupLines();
    BackupLineAt(m, 0);
    BackupLineAt(m, 1);
    BackupLineAt(m, 2);
  }

  lemma AppleBackupLines()
    ensures BackupLine("Apple", 2) == "Apple 2"
    ensures BackupLine("apple", 1) == "apple 1"
    ensures BackupLine("banana", 1) == "banana 1"
  {
    assert IntString(2) == "2" && IntString(1) == "1";
  }
}
