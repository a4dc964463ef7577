/** Pack selection and bank assembly: which packs are active, the working
    bank as the concatenation of their questions, and the list of domains
    offered by the domain filter. */
module Packs {
  import opened Text
  import opened Seqs
  import opened Questions

  /** The keys of the configured packs, in their declaration order. */
  const PackKeys: seq<String> := ["set26", "set27"]

  /** The stored selection when it is a non-empty list, otherwise every
      configured pack. None stands for a missing, unreadable or non-list
      stored value. */
  function DefaultActivePacks(saved: Option<seq<String>>): (r: seq<String>)
    ensures r != []
    ensures saved.Some? && saved.value != [] ==> r == saved.value
    ensures saved.None? || saved.value == [] ==> r == PackKeys
  {
    if saved.Some? && saved.value != [] then saved.value else PackKeys
  }

  /** The configured packs whose checkbox is ticked, in configuration order. */
  function CheckedPacks(checked: set<String>): seq<String> {
    Select(PackKeys, k => k in checked)
  }

  /** The active selection a rebuild uses: the ticked packs, or the default
      selection when none is ticked. */
  function ChooseActive(checked: set<String>, saved: Option<seq<String>>): seq<String> {
    var chosen := CheckedPacks(checked);
    if chosen != [] then chosen else DefaultActivePacks(saved)
  }

  /** The selection is never empty; when some configured pack is ticked it is
      exactly the ticked configured packs, in configuration order. */
  lemma ChooseActiveSpec(checked: set<String>, saved: Option<seq<String>>)
    ensures ChooseActive(checked, saved) != []
    ensures (exists k :: k in PackKeys && k in checked) ==>
      && IsSubseq(ChooseActive(checked, saved), PackKeys)
      && (forall k :: k in ChooseActive(checked, saved) <==> k in PackKeys && k in checked)
    ensures (forall k :: k in PackKeys ==> k !in checked) ==>
      ChooseActive(checked, saved) == DefaultActivePacks(saved)
  {
    SelectSubseq(PackKeys, k => k in checked);
    SelectSpec(PackKeys, k => k in checked);
    if forall k :: k in PackKeys ==> k !in checked {
      SelectNone(PackKeys, k => k in checked);
    }
  }

  /** The working bank: the questions of the active packs concatenated in
      selection order. None when some selected key is not a configured pack
      (looking up its file throws) or its pack is not loaded (a fetch or
      parse that failed); either rejects the whole rebuild. */
  function Assemble(keys: seq<String>, loaded: map<String, seq<Question>>): (r: Option<seq<Question>>)
    ensures r.Some? <==> AllLoaded(keys, loaded)
  {
    if keys == [] then Some([])
    else if keys[0] !in PackKeys || keys[0] !in loaded then None
    else match Assemble(keys[1..], loaded)
      case None => None
      case Some(rest) => Some(loaded[keys[0]] + rest)
  }

  /** Every key of the selection names a loaded configured pack. */
  predicate AllLoaded(keys: seq<String>, loaded: map<String, seq<Question>>) {
    forall k :: k in keys ==> k in PackKeys && k in loaded
  }

  /** A stored selection naming a pack that is not configured fails every
      rebuild in which no configured pack is ticked, whatever is loaded. */
  lemma StaleStoredKeyFails(checked: set<String>, stored: seq<String>, k: String,
                            loaded: map<String, seq<Question>>)
    requires forall c :: c in PackKeys ==> c !in checked
    requires k in stored && k !in PackKeys
    ensures Assemble(ChooseActive(checked, Some(stored)), loaded).None?
  {
    ChooseActiveSpec(checked, Some(stored));
    assert ChooseActive(checked, Some(stored)) == stored;
  }

  /** Assembling two selections one after the other concatenates their banks. */
  lemma {:induction false} AssembleAppend(a: seq<String>, b: seq<String>, loaded: map<String, seq<Question>>)
    requires AllLoaded(a + b, loaded)
    ensures Assemble(a + b, loaded).value == Assemble(a, loaded).value + Assemble(b, loaded).value
  {
    if a != [] {
      assert (a + b)[1..] == a[1..] + b;
      AssembleAppend(a[1..], b, loaded);
    } else {
      assert a + b == b;
    }
  }

  /** The bank holds exactly the questions of the selected packs. */
  lemma {:induction false} AssembleMembers(keys: seq<String>, loaded: map<String, seq<Question>>, q: Question)
    requires AllLoaded(keys, loaded)
    ensures q in Assemble(keys, loaded).value <==> exists k :: k in keys && q in loaded[k]
  {
    if keys != [] {
      AssembleMembers(keys[1..], loaded, q);
      assert forall k :: k in keys <==> k == keys[0] || k in keys[1..];
    }
  }

  /** The bank's size is the sum of the selected packs' sizes. */
  function TotalSize(keys: seq<String>, loaded: map<String, seq<Question>>): nat
    requires forall k :: k in keys ==> k in loaded
  {
    if keys == [] then 0 else |loaded[keys[0]]| + TotalSize(keys[1..], loaded)
  }

  lemma {:induction false} AssembleSize(keys: seq<String>, loaded: map<String, seq<Question>>)
    requires AllLoaded(keys, loaded)
    ensures |Assemble(keys, loaded).value| == TotalSize(keys, loaded)
  {
    if keys != [] { AssembleSize(keys[1..], loaded); }
  }

  /** With set26 = [q1, q2] and set27 = [q3] loaded, the selection
      [set27, set26] gives [q3, q1, q2]. */
  lemma AssembleExample(q1: Question, q2: Question, q3: Question)
    ensures Assemble(["set27", "set26"], map["set26" := [q1, q2], "set27" := [q3]]) == Some([q3, q1, q2])
  {
    var a, b := "set26", "set27";
    var loaded := map[a := [q1, q2], b := [q3]];
    assert a != b by { assert a[4] != b[4]; }
    assert a in PackKeys && b in PackKeys;
    AssembleAppend([b], [a], loaded);
    assert [b] + [a] == [b, a];
    assert Assemble([a], loaded).value == loaded[a] + Assemble([], loaded).value;
    assert Assemble([b], loaded).value == loaded[b] + Assemble([], loaded).value;
    assert [q3] + [] + ([q1, q2] + []) == [q3, q1, q2];
    assert Assemble([b, a], loaded).value == [q3, q1, q2];
  }

  /** A key outside the configuration fails the selection even when a pack
      is loaded under it. */
  lemma UnknownKeyExample(q: Question)
    ensures Assemble(["set26", "foo"], map["set26" := [q], "foo" := [q]]).None?
  {
    var foo := "foo";
    assert foo !in PackKeys by {
      assert foo != "set26" by { assert foo[0] != "set26"[0]; }
      assert foo != "set27" by { assert foo[0] != "set27"[0]; }
    }
    assert foo in ["set26", foo];
  }

  /** Strings in strictly ascending sort order, hence without repetition. */
  predicate StrictlySorted(s: seq<String>) {
    forall i, j :: 0 <= i < j < |s| ==> Less(s[i], s[j])
  }

  /** Some question of qs has the non-empty domain d. */
  predicate HasDomain(qs: seq<Question>, d: String) {
    d != [] && exists i :: 0 <= i < |qs| && qs[i].domain == d
  }

  /** Adds d to a sorted list of distinct domains, keeping it sorted and
      distinct. */
  function Insert(s: seq<String>, d: String): (r: seq<String>)
    requires StrictlySorted(s)
    ensures StrictlySorted(r)
    ensures forall x :: x in r <==> x in s || x == d
  {
    if s == [] then [d]
    else if d == s[0] then s
    else if Less(d, s[0]) then
      assert forall j :: 0 < j < |s| ==> Less(d, s[j]) by {
        forall j | 0 < j < |s| ensures Less(d, s[j]) { LessTransitive(d, s[0], s[j]); }
      }
      [d] + s
    else
      LessTotal(d, s[0]);
      var rest := Insert(s[1..], d);
      assert forall x :: x in rest ==> Less(s[0], x);
      [s[0]] + rest
  }

  /** The options of the domain filter: every non-empty domain of the bank,
      once each, in ascending sort order. */
  function Domains(qs: seq<Question>): (r: seq<String>)
    ensures StrictlySorted(r)
    ensures forall d :: d in r <==> HasDomain(qs, d)
  {
    if qs == [] then []
    else
      var init := qs[..|qs| - 1];
      var d := qs[|qs| - 1].domain;
      var rest := Domains(init);
      assert forall x :: HasDomain(qs, x) <==> HasDomain(init, x) || (x != [] && x == d) by {
        forall x ensures HasDomain(qs, x) <==> HasDomain(init, x) || (x != [] && x == d) {
          if HasDomain(qs, x) && x != d {
            var i :| 0 <= i < |qs| && qs[i].domain == x;
            assert init[i] == qs[i];
          }
          if HasDomain(init, x) {
            var i :| 0 <= i < |init| && init[i].domain == x;
            assert qs[i] == init[i];
          }
        }
      }
      if d == [] then rest else Insert(rest, d)
  }

  /** A strictly sorted list has no repeated entry. */
  lemma SortedNoDup(s: seq<String>)
    requires StrictlySorted(s)
    ensures NoDup(s)
  {
    forall i, j | 0 <= i < j < |s| ensures s[i] != s[j] {
      if s[i] == s[j] { LessIrreflexive(s[i]); }
    }
  }
}
