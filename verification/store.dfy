/**
 * The seen-jobs record file: one line per key, `key|||url|||date|||status`,
 * read back by stripping each line and splitting it on `|||`.
 */
module Store {
  import opened Base
  import opened Text
  import opened Jobs

  // ---------------------------------------------------------------------
  // One line
  // ---------------------------------------------------------------------

  /** The four fields a line is written with. */
  function Fields(k: string, e: Entry): seq<string> {
    [k, e.url, e.postedDate, e.status]
  }

  /** Reads one line: four fields give key and entry, three fields give key and
      entry with the default status, any other number of fields drops the line. */
  function ParseLine(line: string): Option<(string, Entry)> {
    FromParts(Split(Strip(line), Sep))
  }

  /** The entry named by the pieces of a split line, if their number is right. */
  function FromParts(parts: seq<string>): Option<(string, Entry)> {
    if |parts| == 4 then Some((parts[0], Entry(parts[1], parts[2], parts[3])))
    else if |parts| == 3 then Some((parts[0], Entry(parts[1], parts[2], DefaultStatus)))
    else None
  }

  /** The key and entry named by some pieces: joined back they give what the pieces give. */
  lemma {:induction false} FromPartsSound(parts: seq<string>)
    ensures FromParts(parts).Some? <==> |parts| == 3 || |parts| == 4
    ensures FromParts(parts).Some? ==>
              var (k, e) := FromParts(parts).value;
              && k == parts[0] && e.url == parts[1] && e.postedDate == parts[2]
              && (|parts| == 4 ==> e.status == parts[3])
              && (|parts| == 3 ==> e.status == DefaultStatus)
              && (|| Join(Fields(k, e), Sep) == Join(parts, Sep)
                  || (Join(Fields(k, e)[..3], Sep) == Join(parts, Sep) && e.status == DefaultStatus))
  {
    if |parts| == 4 {
      var e := Entry(parts[1], parts[2], parts[3]);
      assert Fields(parts[0], e) == parts;
    } else if |parts| == 3 {
      var e := Entry(parts[1], parts[2], DefaultStatus);
      assert Fields(parts[0], e)[..3] == parts;
    }
  }

  /** Whatever a line is read as, its stripped text is the fields joined back with
      the separator (the status left out when it was defaulted), and no field but
      the status can hold the separator. */
  lemma {:induction false} ParseLineSound(line: string)
    ensures ParseLine(line).Some? ==>
              var (k, e) := ParseLine(line).value;
              && !Contains(k, Sep) && !Contains(e.url, Sep) && !Contains(e.postedDate, Sep)
              && (|| Strip(line) == Join(Fields(k, e), Sep)
                  || (Strip(line) == Join(Fields(k, e)[..3], Sep) && e.status == DefaultStatus))
  {
    var t := Strip(line);
    var parts := Split(t, Sep);
    SplitPieces(t, Sep);
    SplitClean(t, Sep);
    FromPartsSound(parts);
    if FromParts(parts).Some? {
      assert !Contains(parts[0], Sep) && !Contains(parts[1], Sep) && !Contains(parts[2], Sep);
    }
  }

  /** How a line whose stripped text is made of cleanly separated fields is read:
      by the number of fields alone. */
  lemma {:induction false} ParseFields(line: string, fields: seq<string>)
    requires |fields| >= 1
    requires forall k :: 0 <= k < |fields| - 1 ==> CleanInner(fields[k])
    requires !Contains(fields[|fields| - 1], Sep)
    requires Strip(line) == Join(fields, Sep)
    ensures |fields| == 4 ==> ParseLine(line) == Some((fields[0], Entry(fields[1], fields[2], fields[3])))
    ensures |fields| == 3 ==> ParseLine(line) == Some((fields[0], Entry(fields[1], fields[2], DefaultStatus)))
    ensures |fields| != 3 && |fields| != 4 ==> ParseLine(line) == None
  {
    SplitJoin(fields);
  }

  /** `f"{title}|||{url}|||{posted_date}|||{status}\n"` */
  function FormatLine(k: string, e: Entry): string {
    Join(Fields(k, e), Sep) + "\n"
  }

  /** An entry the file can carry faithfully: the key, url and date are clean
      inner fields, the status holds no separator, and `strip()` has nothing to
      take from the key's start or the status's end. */
  ghost predicate Storable(k: string, e: Entry) {
    && CleanInner(k) && CleanInner(e.url) && CleanInner(e.postedDate)
    && !Contains(e.status, Sep)
    && (k == [] || !IsSpace(k[0]))
    && (e.status == [] || !IsSpace(e.status[|e.status| - 1]))
  }

  /** A written line, stripped, is its four joined fields. */
  lemma {:induction false} StripWritten(k: string, e: Entry)
    requires (k == [] || !IsSpace(k[0])) && (e.status == [] || !IsSpace(e.status[|e.status| - 1]))
    ensures Strip(FormatLine(k, e)) == Join(Fields(k, e), Sep)
  {
    var j := Join(Fields(k, e), Sep);
    JoinFour(k, e.url, e.postedDate, e.status, Sep);
    assert j[0] == if k == [] then '|' else k[0];
    assert j[|j| - 1] == if e.status == [] then '|' else e.status[|e.status| - 1];
    StripLine(j);
  }

  /** Reading a written line gives back the key and entry it was written from. */
  lemma {:induction false} LineRoundTrip(k: string, e: Entry)
    requires Storable(k, e)
    ensures ParseLine(FormatLine(k, e)) == Some((k, e))
  {
    var fs := Fields(k, e);
    assert fs[0] == k && fs[1] == e.url && fs[2] == e.postedDate && fs[3] == e.status;
    forall j | 0 <= j < 3 ensures CleanInner(fs[j]) { }
    StripWritten(k, e);
    ParseFields(FormatLine(k, e), fs);
  }

  // ---------------------------------------------------------------------
  // The whole record, as lines
  // ---------------------------------------------------------------------

  /** What each line reads as, in file order. */
  function ParseAll(lines: seq<string>): (r: seq<Option<(string, Entry)>>)
    ensures |r| == |lines|
    ensures forall i :: 0 <= i < |lines| ==> r[i] == ParseLine(lines[i])
  {
    seq(|lines|, i requires 0 <= i < |lines| => ParseLine(lines[i]))
  }

  /** The record built from read lines in order: each entry is stored under its
      key, a dropped line changes nothing. */
  function Collect(items: seq<Option<(string, Entry)>>): Dict
    decreases |items|
  {
    if |items| == 0 then Empty()
    else
      var d := Collect(items[..|items| - 1]);
      match items[|items| - 1]
      case None => d
      case Some(kv) => Put(d, kv.0, kv.1)
  }

  /** The collected record is a well-formed dict. */
  lemma {:induction false} CollectValid(items: seq<Option<(string, Entry)>>)
    ensures Valid(Collect(items))
    decreases |items|
  {
    if |items| > 0 {
      var init := items[..|items| - 1];
      CollectValid(init);
      match items[|items| - 1]
      case None =>
      case Some(kv) => PutValid(Collect(init), kv.0, kv.1);
    }
  }

  /** `load_seen_jobs` over the lines of the file. */
  function Load(lines: seq<string>): Dict {
    Collect(ParseAll(lines))
  }

  /** Item `item` is an entry for key `k`. */
  ghost predicate Defines(item: Option<(string, Entry)>, k: string) {
    item.Some? && item.value.0 == k
  }

  /** Some item is an entry for key `k`. */
  ghost predicate Mentions(items: seq<Option<(string, Entry)>>, k: string) {
    exists i :: 0 <= i < |items| && Defines(items[i], k)
  }

  /** Item `i` is the last one that is an entry for key `k`. */
  ghost predicate LastDefining(items: seq<Option<(string, Entry)>>, i: int, k: string) {
    && 0 <= i < |items| && Defines(items[i], k)
    && forall j :: i < j < |items| ==> !Defines(items[j], k)
  }

  lemma {:induction false} MentionsSnoc(items: seq<Option<(string, Entry)>>, k: string)
    requires |items| > 0
    ensures Mentions(items, k) <==> Mentions(items[..|items| - 1], k) || Defines(items[|items| - 1], k)
  {
    var init := items[..|items| - 1];
    if Mentions(items, k) && !Defines(items[|items| - 1], k) {
      var i :| 0 <= i < |items| && Defines(items[i], k);
      assert Defines(init[i], k);
    }
    if Mentions(init, k) {
      var i :| 0 <= i < |init| && Defines(init[i], k);
      assert Defines(items[i], k);
    }
  }

  lemma {:induction false} CollectLastWins(items: seq<Option<(string, Entry)>>, k: string)
    ensures k in Collect(items).m <==> Mentions(items, k)
    ensures forall i :: LastDefining(items, i, k) ==>
              k in Collect(items).m && Collect(items).m[k] == items[i].value.1
    decreases |items|
  {
    if |items| > 0 {
      var n := |items| - 1;
      var init := items[..n];
      var d := Collect(init);
      var r := Collect(items);
      CollectLastWins(init, k);
      MentionsSnoc(items, k);
      if Defines(items[n], k) {
        assert r.m[k] == items[n].value.1;
        forall i | LastDefining(items, i, k) ensures i == n { }
      } else {
        assert k in r.m <==> k in d.m;
        assert k in r.m ==> r.m[k] == d.m[k];
        forall i | LastDefining(items, i, k) ensures LastDefining(init, i, k) {
          assert init[i] == items[i];
          forall j | i < j < n ensures !Defines(init[j], k) {
            assert init[j] == items[j];
          }
        }
      }
    }
  }

  /** A key is in the loaded record exactly when some line is read as an entry
      for it, and then it holds the entry of the last such line. */
  lemma {:induction false} LoadLastWins(lines: seq<string>, k: string)
    ensures k in Load(lines).m <==> exists i :: 0 <= i < |lines| && Defines(ParseLine(lines[i]), k)
    ensures forall i :: LastDefining(ParseAll(lines), i, k) ==>
              k in Load(lines).m && Load(lines).m[k] == ParseLine(lines[i]).value.1
  {
    var items := ParseAll(lines);
    CollectLastWins(items, k);
    if Mentions(items, k) {
      var i :| 0 <= i < |items| && Defines(items[i], k);
      assert Defines(ParseLine(lines[i]), k);
    }
    if exists i :: 0 <= i < |lines| && Defines(ParseLine(lines[i]), k) {
      var i :| 0 <= i < |lines| && Defines(ParseLine(lines[i]), k);
      assert Defines(items[i], k);
    }
  }

  /** `save_seen_jobs` as lines: one line per key, in the dict's insertion order. */
  function Save(d: Dict): (r: seq<string>)
    requires Valid(d)
    ensures |r| == |d.order|
  {
    seq(|d.order|, i requires 0 <= i < |d.order| => FormatLine(d.order[i], d.m[d.order[i]]))
  }

  /** Every entry of the record can be carried by the file. */
  ghost predicate AllStorable(d: Dict) {
    forall k :: k in d.m ==> Storable(k, d.m[k])
  }

  /** Collecting the entries of the first keys of `d`, in order, rebuilds that
      part of `d`: the same keys in the same order, with their entries. */
  lemma {:induction false} CollectDistinct(d: Dict, items: seq<Option<(string, Entry)>>)
    requires Valid(d) && |items| <= |d.order|
    requires forall i :: 0 <= i < |items| ==> items[i] == Some((d.order[i], d.m[d.order[i]]))
    ensures Collect(items).order == d.order[..|items|]
    ensures forall k :: k in Collect(items).m <==> k in d.order[..|items|]
    ensures forall k :: k in Collect(items).m ==> k in d.m && Collect(items).m[k] == d.m[k]
    decreases |items|
  {
    var n := |items|;
    if n > 0 {
      var k := d.order[n - 1];
      var init := items[..n - 1];
      var p := Collect(init);
      assert Collect(items) == Put(p, k, d.m[k]);
      CollectDistinct(d, init);
      OrderPrefix(d, n);
    }
  }

  /** The first `n` keys of a dict are the first `n - 1` and then a key not among them. */
  lemma {:induction false} OrderPrefix(d: Dict, n: nat)
    requires Valid(d) && 0 < n <= |d.order|
    ensures d.order[..n] == d.order[..n - 1] + [d.order[n - 1]]
    ensures d.order[n - 1] !in d.order[..n - 1]
  {
  }

  /** Each written line reads back as the key and entry it was written from. */
  lemma {:induction false} SavedLinesRead(d: Dict)
    requires Valid(d) && AllStorable(d)
    ensures forall i :: 0 <= i < |d.order| ==>
              ParseAll(Save(d))[i] == Some((d.order[i], d.m[d.order[i]]))
  {
    forall i | 0 <= i < |d.order|
      ensures ParseAll(Save(d))[i] == Some((d.order[i], d.m[d.order[i]]))
    {
      var k := d.order[i];
      var e := d.m[k];
      assert Storable(k, e);
      LineRoundTrip(k, e);
      assert Save(d)[i] == FormatLine(k, e);
    }
  }

  /** Collecting the entries of all keys of `d`, in order, rebuilds `d`. */
  lemma {:induction false} CollectRebuilds(d: Dict, items: seq<Option<(string, Entry)>>)
    requires Valid(d) && |items| == |d.order|
    requires forall i :: 0 <= i < |items| ==> items[i] == Some((d.order[i], d.m[d.order[i]]))
    ensures Collect(items) == d
  {
    CollectDistinct(d, items);
    assert d.order[..|items|] == d.order;
    SameDict(d, Collect(items));
  }

  /** A dict with the same key order and the same entries as a well-formed `d` is `d`. */
  lemma {:induction false} SameDict(d: Dict, r: Dict)
    requires Valid(d) && r.order == d.order
    requires forall k :: k in r.m <==> k in d.order
    requires forall k :: k in r.m ==> k in d.m && r.m[k] == d.m[k]
    ensures r == d
  {
    assert r.m.Keys == d.m.Keys;
    assert r.m == d.m;
  }

  /** Reading back what `save_seen_jobs` wrote gives the same record, insertion
      order included, provided every entry can be carried by the file. */
  lemma {:induction false} LoadSave(d: Dict)
    requires Valid(d) && AllStorable(d)
    ensures Load(Save(d)) == d
  {
    SavedLinesRead(d);
    CollectRebuilds(d, ParseAll(Save(d)));
  }

  // ---------------------------------------------------------------------
  // The file as text
  // ---------------------------------------------------------------------

  /** The file contents written from a sequence of lines. */
  function Concat(lines: seq<string>): string {
    if |lines| == 0 then "" else lines[0] + Concat(lines[1..])
  }

  /** Text-mode reading with universal newlines: `\r\n` and a lone `\r` both read as `\n`. */
  function Translate(t: string): (r: string)
    ensures '\r' !in r
    ensures '\r' !in t ==> r == t
    decreases |t|
  {
    if t == [] then []
    else if t[0] == '\r' then
      "\n" + Translate(if |t| > 1 && t[1] == '\n' then t[2..] else t[1..])
    else
      assert t == [t[0]] + t[1..];
      [t[0]] + Translate(t[1..])
  }

  /** Iterating over a file: each line keeps its `\n`; a last line without one is kept as is. */
  function SplitLines(t: string): (r: seq<string>)
    ensures Concat(r) == t
    ensures forall i :: 0 <= i < |r| ==> r[i] != []
    decreases |t|
  {
    if t == [] then []
    else match FindFrom(t, "\n", 0)
      case None => [t]
      case Some(i) =>
        var rest := SplitLines(t[i + 1..]);
        assert ([t[..i + 1]] + rest)[1..] == rest;
        assert t == t[..i + 1] + t[i + 1..];
        [t[..i + 1]] + rest
  }

  /** A line as written: a body free of line breaks, then `\n`. */
  ghost predicate WrittenLine(l: string) {
    |l| >= 1 && l[|l| - 1] == '\n' && '\n' !in l[..|l| - 1]
  }

  lemma {:induction false} SplitLinesConcat(lines: seq<string>)
    requires forall i :: 0 <= i < |lines| ==> WrittenLine(lines[i])
    ensures SplitLines(Concat(lines)) == lines
  {
    if |lines| > 0 {
      var l := lines[0];
      var t := Concat(lines);
      assert t == l + Concat(lines[1..]);
      forall j: nat | j < |l| - 1 ensures !OccursAt(t, "\n", j) {
        assert t[j..j + 1][0] == l[..|l| - 1][j];
      }
      assert OccursAt(t, "\n", |l| - 1) by { assert t[|l| - 1..|l|] == [l[|l| - 1]]; }
      FindFromLeftmost(t, "\n", 0, |l| - 1);
      assert t[..|l|] == l && t[|l|..] == Concat(lines[1..]);
      SplitLinesConcat(lines[1..]);
      assert lines == [l] + lines[1..];
    }
  }

  /** The lines Python yields when iterating over a file with contents `t`. */
  function ReadLines(t: string): seq<string> {
    SplitLines(Translate(t))
  }

  /** `load_seen_jobs`: a missing file gives the empty record. */
  function LoadFile(file: Option<string>): Dict {
    match file
    case None => Empty()
    case Some(t) => Load(ReadLines(t))
  }

  /** `save_seen_jobs`: the full contents the file is rewritten with. */
  function SaveFile(d: Dict): string
    requires Valid(d)
  {
    Concat(Save(d))
  }

  /** No field of the entry breaks a line when read back. */
  ghost predicate SingleLine(k: string, e: Entry) {
    forall f :: f in Fields(k, e) ==> '\n' !in f && '\r' !in f
  }

  /** Reading the file `save_seen_jobs` wrote gives back the same record,
      insertion order included, when every entry can be carried by the file
      and no field holds a line break. */
  lemma {:induction false} FileRoundTrip(d: Dict)
    requires Valid(d) && AllStorable(d)
    requires forall k :: k in d.m ==> SingleLine(k, d.m[k])
    ensures LoadFile(Some(SaveFile(d))) == d
  {
    var lines := Save(d);
    forall i | 0 <= i < |lines| ensures WrittenLine(lines[i]) && '\r' !in lines[i] {
      var k := d.order[i];
      assert lines[i] == FormatLine(k, d.m[k]);
      FormatSingleLine(k, d.m[k]);
    }
    ConcatNoReturn(lines);
    SplitLinesConcat(lines);
    LoadSave(d);
  }

  /** A written line whose fields hold no line break is one line, ended by `\n`. */
  lemma {:induction false} FormatSingleLine(k: string, e: Entry)
    requires SingleLine(k, e)
    ensures WrittenLine(FormatLine(k, e)) && '\r' !in FormatLine(k, e)
  {
    var fs := Fields(k, e);
    assert fs[0] == k && fs[1] == e.url && fs[2] == e.postedDate && fs[3] == e.status;
    assert '\n' !in k && '\n' !in e.url && '\n' !in e.postedDate && '\n' !in e.status;
    assert '\r' !in k && '\r' !in e.url && '\r' !in e.postedDate && '\r' !in e.status;
    var j := Join(fs, Sep);
    JoinFour(k, e.url, e.postedDate, e.status, Sep);
    var l := FormatLine(k, e);
    assert l[..|l| - 1] == j;
  }

  lemma {:induction false} ConcatNoReturn(lines: seq<string>)
    requires forall i :: 0 <= i < |lines| ==> '\r' !in lines[i]
    ensures '\r' !in Concat(lines)
  {
    if |lines| > 0 {
      ConcatNoReturn(lines[1..]);
    }
  }
}
