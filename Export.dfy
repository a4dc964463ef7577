/** The history export: one CSV line per answer record, with the id's commas
    blanked out and the stem quoted. */
module Export {
  import opened Text
  import opened Questions

  /** The id field: every comma replaced by a space. */
  function EscapeId(id: String): (r: String)
    ensures |r| == |id| && ',' !in r
    ensures forall i :: 0 <= i < |id| && id[i] != ',' ==> r[i] == id[i]
    ensures forall i :: 0 <= i < |id| && id[i] == ',' ==> r[i] == ' '
  {
    seq(|id|, i requires 0 <= i < |id| => if id[i] == ',' then ' ' else id[i])
  }

  /** Escaping an id without commas leaves it as it is; escaping twice is
      escaping once. */
  lemma EscapeIdFixes(id: String)
    ensures ',' !in id ==> EscapeId(id) == id
    ensures EscapeId(EscapeId(id)) == EscapeId(id)
  {
  }

  /** Every double quote doubled. */
  function DoubleQuotes(s: String): (r: String)
    ensures |r| >= |s|
  {
    if s == [] then []
    else (if s[0] == '"' then "\"\"" else [s[0]]) + DoubleQuotes(s[1..])
  }

  /** The stem field: the stem with its quotes doubled, between quotes. */
  function QuoteStem(stem: String): String {
    "\"" + DoubleQuotes(stem) + "\""
  }

  /** A CSV reader's view of the inside of a quoted field: up to the first
      quote that is not doubled. Returns the field's text and what follows
      the closing quote; None when the closing quote is missing. */
  function Unquote(t: String): (r: Option<(String, String)>)
    ensures r.Some? ==> |r.value.1| < |t|
  {
    if t == [] then None
    else if t[0] == '"' then
      if |t| >= 2 && t[1] == '"' then
        match Unquote(t[2..])
        case None => None
        case Some((f, rest)) => Some(("\"" + f, rest))
      else Some(([], t[1..]))
    else
      match Unquote(t[1..])
      case None => None
      case Some((f, rest)) => Some(([t[0]] + f, rest))
  }

  /** A field as a CSV reader takes it: quoted when it starts with a quote,
      otherwise everything up to the next comma. */
  function ReadField(s: String): (r: Option<(String, String)>)
    ensures r.Some? ==> |r.value.1| <= |s|
  {
    if s != [] && s[0] == '"' then Unquote(s[1..]) else Some(UpToComma(s))
  }

  function UpToComma(s: String): (r: (String, String))
    ensures r.0 + r.1 == s && ',' !in r.0
    ensures r.1 == [] || r.1[0] == ','
  {
    if s == [] || s[0] == ',' then ([], s)
    else
      var r := UpToComma(s[1..]);
      assert [s[0]] + r.0 + r.1 == s by {
        assert [s[0]] + (r.0 + r.1) == s;
      }
      ([s[0]] + r.0, r.1)
  }

  /** The fields of a line, separated by commas. */
  function ReadFields(s: String): Option<seq<String>>
    decreases |s|
  {
    match ReadField(s)
    case None => None
    case Some((f, rest)) =>
      if rest == [] then Some([f])
      else if rest[0] != ',' then None
      else match ReadFields(rest[1..])
        case None => None
        case Some(fs) => Some([f] + fs)
  }

  /** The quoting round-trips: a reader gets back the stem exactly, and
      stops right after the closing quote. */
  lemma {:induction false} UnquoteDoubled(s: String, rest: String)
    requires rest == [] || rest[0] != '"'
    ensures Unquote(DoubleQuotes(s) + "\"" + rest) == Some((s, rest))
  {
    if s != [] {
      UnquoteDoubled(s[1..], rest);
      var t := DoubleQuotes(s) + "\"" + rest;
      var tail := DoubleQuotes(s[1..]) + "\"" + rest;
      if s[0] == '"' {
        assert t == "\"\"" + tail;
        assert t[2..] == tail;
      } else {
        assert t == [s[0]] + tail;
        assert t[1..] == tail;
      }
      assert [s[0]] + s[1..] == s;
    } else {
      assert DoubleQuotes(s) + "\"" + rest == "\"" + rest;
    }
  }

  lemma ReadQuotedField(stem: String, rest: String)
    requires rest == [] || rest[0] == ','
    ensures ReadField(QuoteStem(stem) + rest) == Some((stem, rest))
  {
    UnquoteDoubled(stem, rest);
    var line := QuoteStem(stem) + rest;
    assert line[1..] == DoubleQuotes(stem) + "\"" + rest;
  }

  lemma ReadPlainField(f: String, rest: String)
    requires ',' !in f && (f == [] || f[0] != '"')
    requires rest == [] || rest[0] == ','
    ensures ReadField(f + rest) == Some((f, rest))
  {
    PlainUpToComma(f, rest);
  }

  lemma {:induction false} PlainUpToComma(f: String, rest: String)
    requires ',' !in f
    requires rest == [] || rest[0] == ','
    ensures UpToComma(f + rest) == (f, rest)
  {
    if f != [] {
      var s := f + rest;
      assert s[0] == f[0] && s[0] != ',';
      assert s[1..] == f[1..] + rest;
      assert UpToComma(s[1..]) == (f[1..], rest) by {
        PlainUpToComma(f[1..], rest);
      }
      assert [f[0]] + f[1..] == f;
    } else {
      assert f + rest == rest;
    }
  }

  /** The decimal text of a number, as Number.prototype.toString gives it. */
  function NatToString(n: nat): (r: String)
    ensures r != [] && forall i :: 0 <= i < |r| ==> '0' <= r[i] <= '9'
  {
    var digit := ['0' + (n % 10) as char];
    if n < 10 then digit else NatToString(n / 10) + digit
  }

  function IntToString(i: int): (r: String)
    ensures r != [] && ',' !in r && r[0] != '"'
  {
    if i < 0 then "-" + NatToString(-i) else NatToString(i)
  }

  function BoolToString(b: bool): String {
    if b then "true" else "false"
  }

  const Header: String := "id,time,stem,selected,correctIndex,correct"

  /** The CSV line of one answer record. */
  function CsvRow(r: AnswerRecord): String {
    Join([EscapeId(r.id), r.time, QuoteStem(r.stem),
          IntToString(r.selected), IntToString(r.correctIndex), BoolToString(r.correct)], ',')
  }

  function Rows(history: seq<AnswerRecord>): (r: seq<String>)
    ensures |r| == |history|
    ensures forall k :: 0 <= k < |r| ==> r[k] == CsvRow(history[k])
  {
    seq(|history|, k requires 0 <= k < |history| => CsvRow(history[k]))
  }

  /** The exported file: nothing for an empty history, otherwise the header
      line and one line per record, oldest first. */
  function ExportCsv(history: seq<AnswerRecord>): (r: Option<String>)
    ensures r.None? <==> history == []
  {
    if history == [] then None else Some(Join([Header] + Rows(history), '\n'))
  }

  /** raw is how the line writes the field f: f between quotes with its
      quotes doubled, or f itself when it has no comma and does not start
      with a quote. */
  predicate Reads(raw: String, f: String) {
    if raw != [] && raw[0] == '"' then raw == QuoteStem(f) else ',' !in raw && f == raw
  }

  lemma ReadsField(raw: String, f: String, rest: String)
    requires Reads(raw, f)
    requires rest == [] || rest[0] == ','
    ensures ReadField(raw + rest) == Some((f, rest))
  {
    if raw != [] && raw[0] == '"' {
      ReadQuotedField(f, rest);
    } else {
      ReadPlainField(raw, rest);
    }
  }

  /** A line of fields written as Reads says reads back as those fields. */
  lemma {:induction false} ReadJoin(raws: seq<String>, fields: seq<String>)
    requires |raws| == |fields| >= 1
    requires forall k :: 0 <= k < |raws| ==> Reads(raws[k], fields[k])
    ensures ReadFields(Join(raws, ',')) == Some(fields)
  {
    if |raws| == 1 {
      ReadsField(raws[0], fields[0], []);
      assert raws[0] + [] == raws[0];
      assert fields == [fields[0]];
    } else {
      var t := Join(raws[1..], ',');
      var rest := "," + t;
      assert Join(raws, ',') == raws[0] + rest;
      assert ReadFields(t) == Some(fields[1..]) by {
        forall k | 0 <= k < |raws| - 1 ensures Reads(raws[1..][k], fields[1..][k]) {
          assert raws[1..][k] == raws[k + 1] && fields[1..][k] == fields[k + 1];
        }
        ReadJoin(raws[1..], fields[1..]);
      }
      assert ReadField(raws[0] + rest) == Some((fields[0], rest)) by {
        ReadsField(raws[0], fields[0], rest);
      }
      assert rest[1..] == t;
      assert fields == [fields[0]] + fields[1..];
    }
  }

  /** A reader splitting the line at commas outside quotes gets back the
      escaped id, the time, the stem itself and the three numbers' texts,
      provided the time has no comma and does not start with a quote (an ISO
      timestamp has neither) and the id does not start with a quote. */
  lemma CsvRowFields(r: AnswerRecord)
    requires ',' !in r.time && (r.time == [] || r.time[0] != '"')
    requires r.id == [] || r.id[0] != '"'
    ensures ReadFields(CsvRow(r)) == Some([EscapeId(r.id), r.time, r.stem,
      IntToString(r.selected), IntToString(r.correctIndex), BoolToString(r.correct)])
  {
    var raws := [EscapeId(r.id), r.time, QuoteStem(r.stem),
                 IntToString(r.selected), IntToString(r.correctIndex), BoolToString(r.correct)];
    var fields := [EscapeId(r.id), r.time, r.stem,
                   IntToString(r.selected), IntToString(r.correctIndex), BoolToString(r.correct)];
    if r.id != [] { assert EscapeId(r.id)[0] != '"'; }
    assert Reads(raws[0], fields[0]);
    assert Reads(raws[1], fields[1]);
    assert Reads(raws[2], fields[2]);
    assert Reads(raws[3], fields[3]);
    assert Reads(raws[4], fields[4]);
    assert Reads(raws[5], fields[5]);
    ReadJoin(raws, fields);
  }

  /** Quote doubling works piece by piece. */
  lemma {:induction false} DoubleQuotesAppend(a: String, b: String)
    ensures DoubleQuotes(a + b) == DoubleQuotes(a) + DoubleQuotes(b)
  {
    if a != [] {
      DoubleQuotesAppend(a[1..], b);
      assert (a + b)[1..] == a[1..] + b;
    } else {
      assert a + b == b;
    }
  }

  /** A stem without quotes is written as it is, between quotes. */
  lemma {:induction false} DoubleQuotesNone(s: String)
    requires '"' !in s
    ensures DoubleQuotes(s) == s
  {
    if s != [] {
      DoubleQuotesNone(s[1..]);
      assert [s[0]] + s[1..] == s;
    }
  }

  /** A stem ending in a quoted word, a"b", is written "a""b""" (with the
      outer quotes). */
  lemma QuoteWord(a: String, b: String)
    requires '"' !in a && '"' !in b
    ensures QuoteStem(a + "\"" + b + "\"") == "\"" + a + "\"\"" + b + "\"\"" + "\""
  {
    var q := "\"";
    var qq := "\"\"";
    assert DoubleQuotes(q) == qq;
    var x := a + q + b;
    assert DoubleQuotes(a + q) == a + qq by {
      DoubleQuotesAppend(a, q);
      DoubleQuotesNone(a);
    }
    assert DoubleQuotes(x) == a + qq + b by {
      DoubleQuotesAppend(a + q, b);
      DoubleQuotesNone(b);
    }
    assert DoubleQuotes(x + q) == a + qq + b + qq by {
      DoubleQuotesAppend(x, q);
    }
  }

  /** The stem He said "hi" is written "He said ""hi""" (with the outer
      quotes). */
  lemma QuoteExample(stem: String)
    requires stem == "He said \"hi\""
    ensures QuoteStem(stem) == "\"He said \"\"hi\"\"\""
  {
    var a, b := "He said ", "hi";
    assert stem == a + "\"" + b + "\"";
    QuoteWord(a, b);
  }

  /** Quote doubling adds only quotes. */
  lemma {:induction false} DoubleQuotesAvoids(s: String, c: char)
    requires c != '"' && c !in s
    ensures c !in DoubleQuotes(s)
  {
    if s != [] {
      DoubleQuotesAvoids(s[1..], c);
    }
  }

  /** A record whose id, time and stem have no line break gives a CSV line
      without one. */
  lemma RowNoBreak(r: AnswerRecord)
    requires '\n' !in r.id && '\n' !in r.time && '\n' !in r.stem
    ensures '\n' !in CsvRow(r)
  {
    var parts := [EscapeId(r.id), r.time, QuoteStem(r.stem),
                  IntToString(r.selected), IntToString(r.correctIndex), BoolToString(r.correct)];
    DoubleQuotesAvoids(r.stem, '\n');
    assert '\n' !in parts[0];
    assert '\n' !in parts[2];
    assert '\n' !in parts[3] && '\n' !in parts[4];
    assert '\n' !in parts[5];
    JoinAvoids(parts, ',', '\n');
  }

  /** The file's lines: when no id, time or stem holds a line break,
      splitting the file at line breaks gives the header and then one line
      per record, oldest first. */
  lemma ExportLines(history: seq<AnswerRecord>)
    requires history != []
    requires forall k :: 0 <= k < |history| ==>
      '\n' !in history[k].id && '\n' !in history[k].time && '\n' !in history[k].stem
    ensures Split(ExportCsv(history).value, '\n') == [Header] + Rows(history)
  {
    var lines := [Header] + Rows(history);
    forall k | 0 <= k < |lines| ensures '\n' !in lines[k] {
      if k == 0 {
        HeaderNoBreak();
      } else {
        RowNoBreak(history[k - 1]);
      }
    }
    SplitJoin(lines, '\n');
  }

  lemma HeaderNoBreak()
    ensures '\n' !in Header
  {
  }
}
