/**
 * The program's `main`: build the tracker, report the number of distinct items,
 * then serve menu choices until the exit choice. Choices and search terms arrive
 * as already-read values; what each cycle shows is returned as a `Reply`.
 */
module Menu {

  import opened Wrappers
  import opened SeqFacts
  import opened Text
  import opened Table
  import opened Tracker

  /** The four menu actions. */
  datatype Action = Search | ListAll | ShowHistogram | Exit

  /** The `switch (choice)`: choices 1 to 4 name an action, anything else none. */
  function ActionOf(choice: int): (r: Option<Action>)
    ensures r.Some? <==> 1 <= choice <= 4
    ensures r == Some(Search) <==> choice == 1
    ensures r == Some(ListAll) <==> choice == 2
    ensures r == Some(ShowHistogram) <==> choice == 3
    ensures r == Some(Exit) <==> choice == 4
  {
    if choice == 1 then Some(Search)
    else if choice == 2 then Some(ListAll)
    else if choice == 3 then Some(ShowHistogram)
    else if choice == 4 then Some(Exit)
    else None
  }

  /** A choice passes validation exactly when the switch has a case for it, so its `default` is never taken. */
  lemma ValidChoiceSelectsAction(choice: int)
    ensures ItemTracker.IsValidChoice(choice) <==> ActionOf(choice).Some?
    ensures ItemTracker.IsValidChoice(choice) <==> 1 <= choice <= 4
  {
  }

  /** What one cycle of the menu shows. */
  datatype Reply =
    | InvalidChoice
    | Found(item: string, count: int)
    | NotFound(term: string)
    | Listing(rows: seq<(string, int)>)
    | Chart(bars: seq<(string, string)>)
    | Goodbye

  /** The loop's state: the `running` flag and the search terms not yet read. */
  datatype LoopState = LoopState(running: bool, terms: seq<string>)

  /** The search report: the matching entry, or the lower-cased term that matched nothing. */
  function SearchReply(m: map<string, int>, term: string): (r: Reply)
    ensures r.NotFound? <==> forall k :: k in m ==> Lower(k) != Lower(term)
    ensures r.NotFound? ==> r.term == Lower(term)
    ensures r.Found? ==> Lookup(m, term) == Some((r.item, r.count))
    ensures r.Found? || r.NotFound?
  {
    LookupFirstMatch(m, term);
    match Lookup(m, term)
    case None => NotFound(Lower(term))
    case Some(entry) => Found(entry.0, entry.1)
  }

  /**
   * One cycle of the loop: an invalid choice changes nothing, choices 1 to 3 run
   * a query and keep the loop running, choice 4 stops it. A search reads the next
   * term; when none is left the term is empty, as after a failed `getline`.
   */
  function Step(m: map<string, int>, s: LoopState, choice: int): (next: (LoopState, Reply))
    requires s.running
    ensures !ItemTracker.IsValidChoice(choice) ==> next == (s, InvalidChoice)
    ensures next.1 == InvalidChoice <==> !ItemTracker.IsValidChoice(choice)
    ensures next.0.running <==> choice != 4
    ensures next.1 == Goodbye <==> choice == 4
    ensures choice != 1 ==> next.0.terms == s.terms
    ensures choice == 1 ==> next.0.terms == if s.terms == [] then [] else s.terms[1..]
    ensures choice == 1 ==> next.1 == SearchReply(m, if s.terms == [] then "" else s.terms[0])
    ensures choice == 2 ==> next.1 == Listing(Entries(m))
    ensures choice == 3 ==> next.1 == Chart(Histogram(m))
  {
    match ActionOf(choice)
    case None => (s, InvalidChoice)
    case Some(Search) =>
      var term := if s.terms == [] then "" else s.terms[0];
      (s.(terms := if s.terms == [] then [] else s.terms[1..]), SearchReply(m, term))
    case Some(ListAll) => (s, Listing(Entries(m)))
    case Some(ShowHistogram) => (s, Chart(Histogram(m)))
    case Some(Exit) => (s.(running := false), Goodbye)
  }

  /** How many choices the loop reads: up to and including the first 4, or all of them. */
  function Consumed(choices: seq<int>): (n: nat)
    ensures n <= |choices|
    ensures forall j :: 0 <= j < n - 1 ==> choices[j] != 4
    ensures 4 in choices ==> n > 0 && choices[n - 1] == 4
    ensures 4 !in choices ==> n == |choices|
    decreases |choices|
  {
    if choices == [] then 0
    else if choices[0] == 4 then 1
    else 1 + Consumed(choices[1..])
  }

  /** The replies of a whole session: one per choice read, and nothing after the exit. */
  function Transcript(m: map<string, int>, s: LoopState, choices: seq<int>): (r: seq<Reply>)
    ensures |r| <= |choices|
    decreases |choices|
  {
    if !s.running || choices == [] then []
    else
      var next := Step(m, s, choices[0]);
      [next.1] + Transcript(m, next.0, choices[1..])
  }

  /**
   * A session answers every choice up to and including the first 4 and nothing
   * after it; reply j is the invalid-choice message exactly when choice j is out
   * of range, and the farewell exactly when choice j is 4.
   */
  lemma {:induction false} TranscriptShape(m: map<string, int>, s: LoopState, choices: seq<int>)
    ensures !s.running ==> Transcript(m, s, choices) == []
    ensures s.running ==> |Transcript(m, s, choices)| == Consumed(choices)
    ensures forall j :: 0 <= j < |Transcript(m, s, choices)| ==>
      (Transcript(m, s, choices)[j] == InvalidChoice <==> !ItemTracker.IsValidChoice(choices[j]))
    ensures forall j :: 0 <= j < |Transcript(m, s, choices)| ==>
      (Transcript(m, s, choices)[j] == Goodbye <==> choices[j] == 4)
    decreases |choices|
  {
    if s.running && choices != [] {
      var next := Step(m, s, choices[0]);
      TranscriptShape(m, next.0, choices[1..]);
      var r := Transcript(m, s, choices);
      assert r == [next.1] + Transcript(m, next.0, choices[1..]);
      forall j | 1 <= j < |r|
        ensures r[j] == Transcript(m, next.0, choices[1..])[j - 1] && choices[j] == choices[1..][j - 1]
      {
      }
    }
  }

  lemma TranscriptUnfold(m: map<string, int>, s: LoopState, choices: seq<int>, i: nat)
    requires s.running && i < |choices|
    ensures Transcript(m, s, choices[i..]) ==
      [Step(m, s, choices[i]).1] + Transcript(m, Step(m, s, choices[i]).0, choices[i + 1..])
  {
    assert choices[i..][1..] == choices[i + 1..];
  }

  /**
   * One pass through the body of the menu loop: validate the choice, then run the
   * query it selects (a search reads the next term) or stop the loop.
   */
  method ServeChoice(tracker: ItemTracker, choice: int, terms: seq<string>)
    returns (reply: Reply, pending: seq<string>, running: bool)
    requires tracker.Valid()
    ensures (LoopState(running, pending), reply) == Step(tracker.itemFrequency, LoopState(true, terms), choice)
  {
    pending, running := terms, true;
    if !ItemTracker.IsValidChoice(choice) {
      reply := InvalidChoice;
    } else if choice == 1 {
      var term := "";
      if pending != [] {
        term := pending[0];
        pending := pending[1..];
      }
      var found := tracker.SearchItemFrequency(term);
      reply := if found.Some? then Found(found.value.0, found.value.1) else NotFound(Lower(term));
    } else if choice == 2 {
      var rows := tracker.DisplayAllFrequencies();
      reply := Listing(rows);
    } else if choice == 3 {
      var rows := tracker.DisplayHistogram();
      reply := Chart(rows);
    } else {
      reply := Goodbye;
      running := false;
    }
  }

  /** The `while (running)` loop of `main`, over a finite supply of choices. */
  method RunMenu(tracker: ItemTracker, choices: seq<int>, terms: seq<string>)
    returns (replies: seq<Reply>, running: bool)
    requires tracker.Valid()
    ensures replies == Transcript(tracker.itemFrequency, LoopState(true, terms), choices)
    ensures running <==> 4 !in choices
  {
    ghost var m := tracker.itemFrequency;
    ghost var whole := Transcript(m, LoopState(true, terms), choices);
    running := true;
    replies := [];
    var pending := terms;
    var i := 0;
    assert choices[i..] == choices;
    while running && i < |choices|
      invariant 0 <= i <= |choices|
      invariant tracker.itemFrequency == m && tracker.Valid()
      invariant running ==> replies + Transcript(m, LoopState(true, pending), choices[i..]) == whole
      invariant !running ==> replies == whole
      invariant running <==> 4 !in choices[..i]
    {
      var choice := choices[i];
      ghost var next := Step(m, LoopState(true, pending), choice);
      TranscriptUnfold(m, LoopState(true, pending), choices, i);
      PrefixSnoc(choices, i);
      i := i + 1;
      var reply;
      reply, pending, running := ServeChoice(tracker, choice, pending);
      ghost var rest := Transcript(m, next.0, choices[i..]);
      AppendAssoc(replies, [reply], rest);
      replies := replies + [reply];
    }
    if running {
      assert choices[i..] == [] && choices[..i] == choices;
    }
  }

  /**
   * `main` as a whole: `input` is the input file's lines (None when it cannot be
   * opened), `sinkOpen` whether the backup file can be created.
   */
  method RunProgram(input: Option<seq<string>>, sinkOpen: bool, choices: seq<int>, terms: seq<string>)
    returns (totalItems: int, backup: Option<seq<string>>, replies: seq<Reply>, running: bool)
    ensures var table := if input.Some? then Frequencies(input.value) else map[];
      && totalItems == |table|
      && backup == (if sinkOpen then Some(BackupLines(table)) else None)
      && replies == Transcript(table, LoopState(true, terms), choices)
    ensures running <==> 4 !in choices
  {
    var tracker := new ItemTracker(input, sinkOpen);
    totalItems := tracker.GetTotalItems();
    backup := tracker.backupFile;
    replies, running := RunMenu(tracker, choices, terms);
  }
}
