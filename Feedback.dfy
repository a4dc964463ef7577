/** The feedback texts of the quiz card that the engine computes: the answer
    letter and the items of the "why wrong" list. */
module Feedback {
  import opened Text
  import opened Questions

  /** The letter String.fromCharCode(65 + i) shows for answer index i: its
      code is 65 + i taken modulo 2^16. None when that code is a lone
      surrogate, which is not a character in this model. */
  function AnswerLetter(i: int): (r: Option<char>)
    ensures 0 <= i < 26 ==> r.Some? && 'A' <= r.value <= 'Z'
    ensures r.None? <==> 0xD800 <= (65 + i) % 0x10000 < 0xE000
    ensures r.Some? ==> (r.value as int - 65 - i) % 0x10000 == 0
  {
    var code := (65 + i) % 0x10000;
    if 0xD800 <= code < 0xE000 then None else Some(code as char)
  }

  /** The answer index a letter stands for: 'A' is 0, 'B' is 1, ... */
  function LetterIndex(c: char): int {
    c as int - 65
  }

  /** Letters read back as the index they were made from, for every index
      whose code is below the surrogates; in particular 'A' to 'Z' for the
      first 26 choices, each index its own letter. */
  lemma LetterRoundTrip(i: int)
    requires 0 <= 65 + i < 0xD800
    ensures AnswerLetter(i).Some? && LetterIndex(AnswerLetter(i).value) == i
  {
  }

  /** Indices that differ by 2^16 show the same letter: a negative index
      wraps around instead of failing. */
  lemma LetterWraps(i: int)
    ensures AnswerLetter(i + 0x10000) == AnswerLetter(i)
  {
    assert (65 + i + 0x10000) % 0x10000 == (65 + i) % 0x10000;
  }

  /** The first four space-separated words of a choice, as
      opt.split(" ").slice(0, 4).join(" "). */
  function FirstWords(opt: String): String {
    var words := Split(opt, ' ');
    Join(words[..if |words| < 4 then |words| else 4], ' ')
  }

  /** FirstWords is the longest prefix of the choice with at most three
      spaces: it stops at the fourth space, and is the whole choice when
      there are fewer. */
  lemma FirstWordsSpec(opt: String)
    ensures IsPrefix(FirstWords(opt), opt)
    ensures multiset(FirstWords(opt))[' '] == SpacesKept(opt)
    ensures FirstWords(opt) == opt || opt[|FirstWords(opt)|] == ' '
    ensures multiset(opt)[' '] <= 3 <==> FirstWords(opt) == opt
  {
    var words := Split(opt, ' ');
    SplitCount(opt, ' ');
    if |words| <= 4 {
      FewWords(opt);
    } else {
      ManyWords(opt);
    }
  }

  /** The number of spaces the first four words keep: all of them up to
      three. */
  function SpacesKept(opt: String): nat {
    if multiset(opt)[' '] <= 3 then multiset(opt)[' '] else 3
  }

  /** A prefix of the choice that ends at a space or at the end of the
      choice is fixed by its number of spaces; so FirstWords is the one
      such prefix keeping SpacesKept(opt) spaces, the longest with at most
      three. */
  lemma FirstWordsUnique(opt: String, p: String)
    requires IsPrefix(p, opt) && (p == opt || opt[|p|] == ' ')
    requires multiset(p)[' '] == SpacesKept(opt)
    ensures p == FirstWords(opt)
  {
    FirstWordsSpec(opt);
    var f := FirstWords(opt);
    if |p| < |f| {
      FewerSpaces(opt, p, f);
    } else if |f| < |p| {
      FewerSpaces(opt, f, p);
    } else {
      assert p == opt[..|p|] == f;
    }
  }

  /** A shorter prefix followed by a space has fewer spaces. */
  lemma FewerSpaces(opt: String, p: String, f: String)
    requires IsPrefix(p, opt) && IsPrefix(f, opt) && |p| < |f|
    requires p == opt || opt[|p|] == ' '
    ensures multiset(p)[' '] < multiset(f)[' ']
  {
    var tail := f[|p|..];
    assert f == p + tail by { assert f[..|p|] == opt[..|p|] == p; }
    assert tail[0] == opt[|p|] == ' ';
    assert multiset(f) == multiset(p) + multiset(tail);
  }

  lemma FewWords(opt: String)
    requires |Split(opt, ' ')| <= 4
    ensures FirstWords(opt) == opt
  {
    var words := Split(opt, ' ');
    assert words[..|words|] == words;
    JoinSplit(opt, ' ');
  }

  lemma ManyWords(opt: String)
    requires |Split(opt, ' ')| > 4
    ensures |FirstWords(opt)| < |opt|
    ensures opt[..|FirstWords(opt)|] == FirstWords(opt)
    ensures opt[|FirstWords(opt)|] == ' '
    ensures multiset(FirstWords(opt))[' '] == 3
  {
    var words := Split(opt, ' ');
    var first := Join(words[..4], ' ');
    var rest := Join(words[4..], ' ');
    JoinSplit(opt, ' ');
    JoinSplitAt(words, 4, ' ');
    JoinCount(words[..4], ' ');
    assert opt == first + [' '] + rest;
    assert opt[..|first|] == first;
  }

  /** One item of the list: the first words of the choice, a colon and the
      note for that choice text, or the bare choice when the note is missing
      or empty. */
  function Item(opt: String, notes: map<String, String>): String {
    if opt in notes && notes[opt] != [] then FirstWords(opt) + ": " + notes[opt] else opt
  }

  /** The choices other than the one at answerIndex, in their order. */
  function Distractors(choices: seq<String>, answerIndex: int): (r: seq<String>)
    ensures |r| == if 0 <= answerIndex < |choices| then |choices| - 1 else |choices|
  {
    if 0 <= answerIndex < |choices| then choices[..answerIndex] + choices[answerIndex + 1..]
    else choices
  }

  function Items(opts: seq<String>, notes: map<String, String>): (r: seq<String>)
    ensures |r| == |opts|
  {
    if opts == [] then [] else [Item(opts[0], notes)] + Items(opts[1..], notes)
  }

  /** The "why wrong" list of a question: nothing when it has no notes,
      otherwise one item per distractor. */
  function WhyWrong(q: Question): seq<String> {
    match q.wrongAnswerNotes
    case None => []
    case Some(notes) => Items(Distractors(q.choices, q.answerIndex), notes)
  }

  lemma {:induction false} ItemsAt(opts: seq<String>, notes: map<String, String>, k: int)
    requires 0 <= k < |opts|
    ensures Items(opts, notes)[k] == Item(opts[k], notes)
  {
    if k > 0 { ItemsAt(opts[1..], notes, k - 1); }
  }

  /** Each choice other than the answer has its item, in choice order: the
      choice at index j is item j when it comes before the answer and item
      j - 1 after it. A question without notes gets no list. */
  lemma WhyWrongItems(q: Question, j: int)
    requires 0 <= j < |q.choices| && j != q.answerIndex
    ensures q.wrongAnswerNotes.None? ==> WhyWrong(q) == []
    ensures q.wrongAnswerNotes.Some? ==>
      var k := if 0 <= q.answerIndex < j then j - 1 else j;
      && |WhyWrong(q)| == |q.choices| - (if 0 <= q.answerIndex < |q.choices| then 1 else 0)
      && 0 <= k < |WhyWrong(q)|
      && WhyWrong(q)[k] == Item(q.choices[j], q.wrongAnswerNotes.value)
  {
    if q.wrongAnswerNotes.Some? {
      var d := Distractors(q.choices, q.answerIndex);
      var k := if 0 <= q.answerIndex < j then j - 1 else j;
      assert d[k] == q.choices[j];
      ItemsAt(d, q.wrongAnswerNotes.value, k);
    }
  }

  /** An item is the bare choice when its text has no non-empty note, and
      otherwise the first four words of the choice (the prefix that ends at
      a space or at the end and keeps SpacesKept spaces), a colon and the
      note. */
  lemma ItemSpec(opt: String, notes: map<String, String>)
    ensures opt !in notes || notes[opt] == [] ==> Item(opt, notes) == opt
    ensures opt in notes && notes[opt] != [] ==>
      exists p ::
        && IsPrefix(p, opt) && (p == opt || opt[|p|] == ' ')
        && multiset(p)[' '] == SpacesKept(opt)
        && Item(opt, notes) == p + ": " + notes[opt]
  {
    FirstWordsSpec(opt);
  }

  /** A question with choices "A", "B c d e f", answer 0 and a note "why"
      for the second choice: its list is the single item "B c d e: why". */
  lemma WhyWrongExample()
    ensures WhyWrong(Question("q", "", ["A", "B c d e f"], 0, "", [], "",
                              Some(map["B c d e f" := "why"])))
            == ["B c d e: why"]
  {
    var notes := map["B c d e f" := "why"];
    FirstWordsExample();
    assert Item("B c d e f", notes) == "B c d e: why";
    assert Distractors(["A", "B c d e f"], 0) == ["B c d e f"];
    assert Items(["B c d e f"], notes) == [Item("B c d e f", notes)];
  }

  lemma FirstWordsExample()
    ensures FirstWords("B c d e f") == "B c d e"
  {
    var words := ["B", "c", "d", "e", "f"];
    assert Join(words, ' ') == "B c d e f";
    SplitJoin(words, ' ');
    var first := ["B", "c", "d", "e"];
    assert words[..4] == first;
    assert first[1..] == ["c", "d", "e"] && first[1..][1..] == ["d", "e"] && first[1..][1..][1..] == ["e"];
    assert Join(first, ' ') == "B c d e";
  }
}
