/** The quiz session: the one mutable state record of the page and the
    handlers that change it — rebuilding the bank, filtering, reshuffling,
    resetting, submitting, advancing and bookmarking. */
module Quiz {
  import opened Text
  import opened Seqs
  import opened Questions
  import opened Packs
  import opened Filters
  import opened Ordering
  import opened Bookmarks
  import opened Scoring

  /** What a submit did: nothing without a selected choice, nothing (the
      handler fails) without a current question, otherwise it scored the
      answer. */
  datatype SubmitOutcome = NoSelection | NoQuestion | Answered(isRight: bool)

  class Session {
    var all: seq<Question>
    var filtered: seq<Question>
    var order: array<nat>
    var idx: nat
    var correct: nat
    var incorrect: nat
    var streak: nat
    var settings: Settings
    var history: seq<AnswerRecord>
    var bookmarks: seq<String>
    var activePacks: seq<String>
    /** The answers scored since the counters were last zeroed, oldest first. */
    ghost var answers: seq<bool>

    /** The order is a permutation of the positions of the filtered set, the
        position is inside the order, the filtered set is an order-preserving
        subsequence of the bank, and the counters are those of the answers
        scored since the last restart. */
    ghost predicate Valid()
      reads this, order
    {
      && IsPermutationOf(order[..], |filtered|)
      && (idx == 0 || idx < order.Length)
      && IsSubseq(filtered, all)
      && Score(correct, incorrect, streak) == Replay(answers)
    }

    /** The state at start-up, with settings, history and bookmarks read from
        storage (None: missing or unreadable) and an empty bank. */
    constructor (storedSettings: Option<Settings>, storedHistory: Option<seq<AnswerRecord>>,
                 storedBookmarks: Option<seq<String>>)
      ensures Valid()
      ensures all == [] && filtered == [] && order.Length == 0 && idx == 0
      ensures correct == 0 && incorrect == 0 && streak == 0
      ensures settings == Load(storedSettings, DefaultSettings)
      ensures history == Load(storedHistory, [])
      ensures bookmarks == Load(storedBookmarks, [])
      ensures activePacks == []
    {
      all, filtered := [], [];
      order := new nat[0];
      idx, correct, incorrect, streak := 0, 0, 0, 0;
      settings := Load(storedSettings, DefaultSettings);
      history := Load(storedHistory, []);
      bookmarks := Load(storedBookmarks, []);
      activePacks := [];
      answers := [];
    }

    /** getCurrent: the question at the current position of the order. */
    function Current(): (r: Option<Question>)
      reads this, order
      ensures r.Some? ==> r.value in filtered
    {
      if idx < order.Length && order[idx] < |filtered| then Some(filtered[order[idx]]) else None
    }

    /** In a consistent state there is a current question exactly when the
        filtered set is not empty, and it is the one the order points at. */
    lemma CurrentSpec()
      requires Valid()
      ensures Current().Some? <==> filtered != []
      ensures filtered != [] ==> idx < order.Length && Current() == Some(filtered[order[idx]])
    {
      if filtered != [] {
        assert order[..][idx] == order[idx];
      }
    }

    /** The counters agree with the answers scored since the last restart:
        right plus wrong is their number, and the streak never exceeds the
        right count. */
    lemma CountersSpec()
      requires Valid()
      ensures correct + incorrect == |answers|
      ensures correct == multiset(answers)[true] && incorrect == multiset(answers)[false]
      ensures streak <= correct
    {
      ReplayCounts(answers);
      StreakAtMostCorrect(answers);
    }

    /** rebuildFromActive: choose the active packs, assemble their questions
        and restart the session on the whole bank. When a chosen key is not a
        configured pack or its pack is not loaded, the rebuild fails after
        recording the choice, and the bank, order and counters stay as they
        were. */
    method RebuildFromActive(checked: set<String>, saved: Option<seq<String>>,
                             loaded: map<String, seq<Question>>, pick: nat -> nat)
      returns (ok: bool, domains: seq<String>)
      requires Valid() && ValidPick(pick)
      modifies this
      ensures Valid()
      ensures activePacks == ChooseActive(checked, saved)
      ensures ok <==> Assemble(activePacks, loaded).Some?
      ensures ok ==> forall k :: k in activePacks ==> k in PackKeys && k in loaded
      ensures ok ==>
        && all == Assemble(activePacks, loaded).value
        && filtered == all
        && fresh(order) && order[..] == OrderFor(|all|, settings.shuffle, pick)
        && order.Length == |filtered| && idx == 0 && correct == 0 && incorrect == 0 && streak == 0
        && domains == Domains(all)
      ensures !ok ==>
        && all == old(all) && filtered == old(filtered) && order == old(order) && idx == old(idx)
        && correct == old(correct) && incorrect == old(incorrect) && streak == old(streak)
        && domains == []
      ensures settings == old(settings) && history == old(history) && bookmarks == old(bookmarks)
    {
      activePacks := ChooseActive(checked, saved);
      var assembled := Assemble(activePacks, loaded);
      if assembled.None? {
        return false, [];
      }
      Restart(assembled.value, pick);
      domains := Domains(all);
      ok := true;
    }

    /** The restart a successful rebuild makes: the new bank, unfiltered, a
        new order over it and the position and counters at zero. */
    method Restart(bank: seq<Question>, pick: nat -> nat)
      requires ValidPick(pick)
      modifies this
      ensures Valid()
      ensures all == bank && filtered == bank
      ensures fresh(order) && order[..] == OrderFor(|bank|, settings.shuffle, pick)
      ensures order.Length == |bank| && idx == 0 && correct == 0 && incorrect == 0 && streak == 0
      ensures settings == old(settings) && history == old(history)
      ensures bookmarks == old(bookmarks) && activePacks == old(activePacks)
    {
      all, filtered := bank, bank;
      SubseqRefl(bank);
      order := NewOrder(|bank|, settings.shuffle, pick);
      idx := 0;
      correct, incorrect, streak := 0, 0, 0;
      answers := [];
    }

    /** applyFilters: the filtered set from the controls, a new order over it
        and the position back at its start; the counters carry on. */
    method ApplyFilters(inputs: FilterInputs, pick: nat -> nat)
      requires Valid() && ValidPick(pick)
      modifies this
      ensures Valid()
      ensures filtered == FilterBank(all, ParseCriteria(inputs), bookmarks)
      ensures fresh(order) && order[..] == OrderFor(|filtered|, settings.shuffle, pick)
      ensures order.Length == |filtered| && idx == 0
      ensures correct == old(correct) && incorrect == old(incorrect) && streak == old(streak)
      ensures answers == old(answers)
      ensures all == old(all) && settings == old(settings) && history == old(history)
      ensures bookmarks == old(bookmarks) && activePacks == old(activePacks)
    {
      filtered := FilterBank(all, ParseCriteria(inputs), bookmarks);
      FilterBankSubseq(all, ParseCriteria(inputs), bookmarks);
      order := NewOrder(|filtered|, settings.shuffle, pick);
      idx := 0;
    }

    /** reshuffle: nothing on an empty filtered set; otherwise a new shuffled
        order, whatever the shuffle setting says, and the position back at
        its start. */
    method Reshuffle(pick: nat -> nat)
      requires Valid() && ValidPick(pick)
      modifies this
      ensures Valid()
      ensures old(filtered) == [] ==> order == old(order) && idx == old(idx)
      ensures old(filtered) != [] ==>
        fresh(order) && order[..] == OrderFor(|filtered|, true, pick) && idx == 0
      ensures all == old(all) && filtered == old(filtered)
      ensures correct == old(correct) && incorrect == old(incorrect) && streak == old(streak)
      ensures answers == old(answers)
      ensures settings == old(settings) && history == old(history)
      ensures bookmarks == old(bookmarks) && activePacks == old(activePacks)
    {
      if filtered == [] {
        return;
      }
      order := NewOrder(|filtered|, true, pick);
      idx := 0;
    }

    /** resetSession: when confirmed, the counters and the position go back
        to zero; the bank, the filtered set and the order stay. */
    method ResetSession(confirmed: bool)
      requires Valid()
      modifies this
      ensures Valid()
      ensures confirmed ==> correct == 0 && incorrect == 0 && streak == 0 && idx == 0
      ensures !confirmed ==>
        correct == old(correct) && incorrect == old(incorrect) && streak == old(streak)
        && idx == old(idx) && answers == old(answers)
      ensures all == old(all) && filtered == old(filtered) && order == old(order)
      ensures settings == old(settings) && history == old(history)
      ensures bookmarks == old(bookmarks) && activePacks == old(activePacks)
    {
      if !confirmed {
        return;
      }
      correct, incorrect, streak, idx := 0, 0, 0, 0;
      answers := [];
    }

    /** onSubmit: score the selected choice against the current question and,
        when history is kept, log a record of it. */
    method Submit(sel: Option<int>, now: String) returns (outcome: SubmitOutcome)
      requires Valid()
      modifies this
      ensures Valid()
      ensures sel.None? ==> outcome == NoSelection
      ensures sel.Some? && old(Current()).None? ==> outcome == NoQuestion
      ensures outcome.Answered? <==> sel.Some? && old(Current()).Some?
      ensures !outcome.Answered? ==>
        && correct == old(correct) && incorrect == old(incorrect) && streak == old(streak)
        && answers == old(answers) && history == old(history)
      ensures outcome.Answered? ==>
        var q := old(Current()).value;
        && outcome.isRight == (sel.value == q.answerIndex)
        && Score(correct, incorrect, streak) == Step(old(Score(correct, incorrect, streak)), outcome.isRight)
        && answers == old(answers) + [outcome.isRight]
        && history == old(history) +
             (if settings.persist
              then [AnswerRecord(q.id, q.stem, q.choices, sel.value, q.answerIndex, outcome.isRight, q.rationale, now)]
              else [])
      ensures |history| > |old(history)| ==>
        history[|history| - 1].correct == (history[|history| - 1].selected == history[|history| - 1].correctIndex)
      ensures all == old(all) && filtered == old(filtered) && order == old(order) && idx == old(idx)
      ensures settings == old(settings) && bookmarks == old(bookmarks) && activePacks == old(activePacks)
    {
      var cur := Current();
      if sel.None? {
        return NoSelection;
      }
      if cur.None? {
        return NoQuestion;
      }
      var q := cur.value;
      var isRight := sel.value == q.answerIndex;
      Tally(isRight);
      if settings.persist {
        history := history + [AnswerRecord(q.id, q.stem, q.choices, sel.value, q.answerIndex, isRight, q.rationale, now)];
      }
      outcome := Answered(isRight);
    }

    /** The counter update of one scored answer: one more right answer and a
        longer streak, or one more wrong answer and no streak. */
    method Tally(isRight: bool)
      requires Valid()
      modifies this
      ensures Valid()
      ensures Score(correct, incorrect, streak) == Step(old(Score(correct, incorrect, streak)), isRight)
      ensures answers == old(answers) + [isRight]
      ensures all == old(all) && filtered == old(filtered) && order == old(order) && idx == old(idx)
      ensures settings == old(settings) && history == old(history)
      ensures bookmarks == old(bookmarks) && activePacks == old(activePacks)
    {
      ReplaySnoc(answers, isRight);
      correct := correct + (if isRight then 1 else 0);
      incorrect := incorrect + (if isRight then 0 else 1);
      streak := if isRight then streak + 1 else 0;
      answers := answers + [isRight];
    }

    /** nextQ: one step further along the order while there is a next
        question; at the last one the position stays and the session reports
        completion. */
    method NextQ() returns (done: bool)
      requires Valid()
      modifies this
      ensures Valid()
      ensures old(idx) + 1 < order.Length ==> idx == old(idx) + 1 && !done
      ensures old(idx) + 1 >= order.Length ==> idx == old(idx) && done
      ensures all == old(all) && filtered == old(filtered) && order == old(order)
      ensures correct == old(correct) && incorrect == old(incorrect) && streak == old(streak)
      ensures answers == old(answers)
      ensures settings == old(settings) && history == old(history)
      ensures bookmarks == old(bookmarks) && activePacks == old(activePacks)
    {
      if idx + 1 < order.Length {
        idx := idx + 1;
        done := false;
      } else {
        done := true;
      }
    }

    /** toggleBookmark: star or unstar the current question; nothing when
        there is none. A list without duplicates keeps none. */
    method ToggleBookmark()
      requires Valid()
      modifies this
      ensures Valid()
      ensures old(Current()).None? ==> bookmarks == old(bookmarks)
      ensures old(Current()).Some? ==> bookmarks == Toggled(old(bookmarks), old(Current()).value.id)
      ensures NoDup(old(bookmarks)) ==> NoDup(bookmarks)
      ensures all == old(all) && filtered == old(filtered) && order == old(order) && idx == old(idx)
      ensures correct == old(correct) && incorrect == old(incorrect) && streak == old(streak)
      ensures answers == old(answers)
      ensures settings == old(settings) && history == old(history) && activePacks == old(activePacks)
    {
      var cur := Current();
      if cur.None? {
        return;
      }
      if NoDup(bookmarks) {
        ToggleKeepsNoDup(bookmarks, cur.value.id);
      }
      bookmarks := Toggled(bookmarks, cur.value.id);
    }

    /** clearBookmarks: when confirmed, no bookmarks; if the quiz is filtered
        to bookmarked questions the filters are applied again, which leaves
        no question. */
    method ClearBookmarks(confirmed: bool, inputs: FilterInputs, pick: nat -> nat)
      requires Valid() && ValidPick(pick)
      modifies this
      ensures Valid()
      ensures !confirmed ==> bookmarks == old(bookmarks)
      ensures confirmed ==> bookmarks == []
      ensures confirmed && inputs.onlyBookmarked ==>
        filtered == [] && fresh(order) && order.Length == 0 && idx == 0
      ensures !(confirmed && inputs.onlyBookmarked) ==>
        filtered == old(filtered) && order == old(order) && idx == old(idx)
      ensures all == old(all)
      ensures correct == old(correct) && incorrect == old(incorrect) && streak == old(streak)
      ensures answers == old(answers)
      ensures settings == old(settings) && history == old(history) && activePacks == old(activePacks)
    {
      if !confirmed {
        return;
      }
      bookmarks := [];
      if inputs.onlyBookmarked {
        ApplyFilters(inputs, pick);
        NoBookmarksNoQuestions(all, ParseCriteria(inputs));
      }
    }
  }
}
