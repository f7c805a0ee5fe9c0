/** The directory listing: printed by list_directory, parsed back by sync_files and by the client. */
module Listing {
  import opened Bytes
  import opened Wrappers

  /** What readdir and stat say of one directory entry; ctime's texts end in a newline. */
  datatype Entry = Entry(name: bytes, regular: bool, created: bytes, modified: bytes, accessed: bytes)

  function NameLine(e: Entry): bytes {
    e.name + "\n"
  }

  /** The words in front of the three timestamps. */
  datatype Labels = Labels(created: bytes, modified: bytes, accessed: bytes) {
    predicate Valid() {
      '\n' !in created && '\n' !in modified && '\n' !in accessed && |created| >= 5
    }
  }

  const LABELS := Labels("\tCreated  at ", "\tModified at ", "\tAccessed at ")

  function StampLines(l: Labels, e: Entry): bytes {
    l.created + e.created + l.modified + e.modified + l.accessed + e.accessed + "\n"
  }

  function RenderEntry(l: Labels, e: Entry): bytes {
    NameLine(e) + StampLines(l, e)
  }

  function RenderAll(l: Labels, entries: seq<Entry>): bytes {
    if entries == [] then []
    else RenderAll(l, entries[..|entries| - 1])
         + if entries[|entries| - 1].regular then RenderEntry(l, entries[|entries| - 1]) else []
  }

  /** The names of the regular files, in the order in which readdir gives them. */
  function Names(entries: seq<Entry>): seq<bytes> {
    if entries == [] then []
    else Names(entries[..|entries| - 1])
         + if entries[|entries| - 1].regular then [entries[|entries| - 1].name] else []
  }

  const EMPTY_FOLDER: bytes := "Empty folder\n"

  function ListingText(entries: seq<Entry>): bytes {
    var out := "\n" + RenderAll(LABELS, entries);
    if |out| < 5 then EMPTY_FOLDER else out
  }

  lemma Regroup(a: bytes, b: bytes, c: bytes)
    ensures a + b + c == a + (b + c)
  {
  }

  /**
   * The count returned and the text left in `out`, which the callers pass in empty.  `found` is what readdir reports,
   * or None for a directory that cannot be opened.
   */
  method ListDirectory(found: Option<seq<Entry>>) returns (count: int, out: bytes)
    ensures count == if found.Some? then |Names(found.value)| else -1
    ensures out == if found.Some? then ListingText(found.value) else "\n"
  {
    out, count := "\n", 0;
    if found.None? {
      return -1, out;
    }
    var entries := found.value;
    for i := 0 to |entries|
      invariant out == "\n" + RenderAll(LABELS, entries[..i]) && count == |Names(entries[..i])|
    {
      var e := entries[i];
      assert entries[..i + 1][..i] == entries[..i];
      if e.regular {
        count := count + 1;
        Regroup(out, NameLine(e), StampLines(LABELS, e));
        out := out + NameLine(e);
        out := out + StampLines(LABELS, e);
        Regroup("\n", RenderAll(LABELS, entries[..i]), RenderEntry(LABELS, e));
      }
    }
    assert entries[..|entries|] == entries;
    if |out| < 5 {
      out := EMPTY_FOLDER;
    }
  }

  // ------------------------------------------------------------------ reading it back

  datatype Line = Line(text: bytes, rest: bytes)

  /** std::getline: up to the next newline, which is dropped, or to the end. */
  function GetLine(s: bytes): (l: Line)
    ensures |l.rest| <= |s| && (s != [] ==> |l.rest| < |s|)
    ensures '\n' !in l.text
  {
    if s == [] then Line([], [])
    else if s[0] == '\n' then Line([], s[1..])
    else
      var l := GetLine(s[1..]);
      Line([s[0]] + l.text, l.rest)
  }

  function SkipLines(s: bytes, n: nat): (rest: bytes)
    ensures |rest| <= |s|
    decreases n
  {
    if n == 0 then s else SkipLines(GetLine(s).rest, n - 1)
  }

  /** One name line, then four more lines, until nothing is left. */
  function ParseNames(s: bytes): seq<bytes>
    decreases |s|
  {
    if s == [] then []
    else
      var l := GetLine(s);
      [l.text] + ParseNames(SkipLines(l.rest, 4))
  }

  method SkipMeta(s: bytes, n: nat) returns (rest: bytes)
    ensures rest == SkipLines(s, n)
  {
    rest := s;
    for i := 0 to n
      invariant SkipLines(rest, n - i) == SkipLines(s, n)
    {
      rest := GetLine(rest).rest;
    }
  }

  /** The loop of sync_files and of the client over the text of a listing with at least one file. */
  method ParseListing(text: bytes) returns (names: seq<bytes>)
    ensures names == ParseNames(GetLine(text).rest)
  {
    var stream := GetLine(text).rest;
    names := [];
    while |stream| > 0
      invariant names + ParseNames(stream) == ParseNames(GetLine(text).rest)
      decreases |stream|
    {
      var l := GetLine(stream);
      var rest := SkipMeta(l.rest, 4);
      assert ParseNames(stream) == [l.text] + ParseNames(rest);
      Append(names, l.text, ParseNames(rest));
      stream, names := rest, names + [l.text];
    }
  }

  lemma Append(names: seq<bytes>, name: bytes, later: seq<bytes>)
    ensures names + ([name] + later) == names + [name] + later
  {
  }

  // ------------------------------------------------------------------ the round trip

  /** One line of text with its newline. */
  predicate OneLine(s: bytes) {
    s != [] && s[|s| - 1] == '\n' && '\n' !in s[..|s| - 1]
  }

  predicate Stamped(e: Entry) {
    OneLine(e.created) && OneLine(e.modified) && OneLine(e.accessed)
  }

  lemma {:induction false} GetLineOf(text: bytes, rest: bytes)
    requires '\n' !in text
    ensures GetLine(text + "\n" + rest) == Line(text, rest)
  {
    if text == [] {
      assert text + "\n" + rest == "\n" + rest;
    } else {
      assert (text + "\n" + rest)[1..] == text[1..] + "\n" + rest;
      GetLineOf(text[1..], rest);
      assert [text[0]] + text[1..] == text;
    }
  }

  /** A label without newline and a one-line text make one line. */
  lemma SkipLabelled(tag: bytes, s: bytes, rest: bytes)
    requires '\n' !in tag && OneLine(s)
    ensures GetLine(tag + s + rest).rest == rest
  {
    var body := s[..|s| - 1];
    assert tag + s + rest == (tag + body) + "\n" + rest;
    GetLineOf(tag + body, rest);
  }

  lemma RegroupStamps(t1: bytes, c: bytes, t2: bytes, m: bytes, t3: bytes, a: bytes, rest: bytes)
    ensures t1 + c + t2 + m + t3 + a + "\n" + rest == t1 + c + (t2 + m + (t3 + a + ([] + "\n" + rest)))
  {
  }

  /** The four lines after a name: three stamps and an empty one. */
  lemma SkipStamps(t1: bytes, c: bytes, t2: bytes, m: bytes, t3: bytes, a: bytes, rest: bytes)
    requires '\n' !in t1 && '\n' !in t2 && '\n' !in t3 && OneLine(c) && OneLine(m) && OneLine(a)
    ensures SkipLines(t1 + c + t2 + m + t3 + a + "\n" + rest, 4) == rest
  {
    var s4 := [] + "\n" + rest;
    var s3 := t3 + a + s4;
    var s2 := t2 + m + s3;
    RegroupStamps(t1, c, t2, m, t3, a, rest);
    SkipLabelled(t1, c, s2);
    SkipLabelled(t2, m, s3);
    SkipLabelled(t3, a, s4);
    GetLineOf([], rest);
    assert SkipLines(t1 + c + s2, 4) == SkipLines(s2, 3) == SkipLines(s3, 2) == SkipLines(s4, 1) == SkipLines(rest, 0);
  }

  lemma ParseEntry(l: Labels, e: Entry, rest: bytes)
    requires l.Valid() && Stamped(e) && '\n' !in e.name
    ensures ParseNames(RenderEntry(l, e) + rest) == [e.name] + ParseNames(rest)
  {
    Regroup(NameLine(e), StampLines(l, e), rest);
    GetLineOf(e.name, StampLines(l, e) + rest);
    SkipStamps(l.created, e.created, l.modified, e.modified, l.accessed, e.accessed, rest);
  }

  lemma {:induction false} ParseRendered(l: Labels, entries: seq<Entry>, rest: bytes)
    requires l.Valid() && forall i :: 0 <= i < |entries| ==> Stamped(entries[i])
    requires forall i :: 0 <= i < |entries| && entries[i].regular ==> '\n' !in entries[i].name
    ensures ParseNames(RenderAll(l, entries) + rest) == Names(entries) + ParseNames(rest)
    decreases |entries|
  {
    if entries == [] {
      assert RenderAll(l, entries) + rest == rest;
    } else {
      var before, e := entries[..|entries| - 1], entries[|entries| - 1];
      if e.regular {
        Regroup(RenderAll(l, before), RenderEntry(l, e), rest);
        ParseRendered(l, before, RenderEntry(l, e) + rest);
        ParseEntry(l, e, rest);
        Append(Names(before), e.name, ParseNames(rest));
      } else {
        assert RenderAll(l, entries) == RenderAll(l, before) && Names(entries) == Names(before);
        ParseRendered(l, before, rest);
      }
    }
  }

  lemma {:induction false} ParsedNamesAreLines(s: bytes)
    ensures forall k :: 0 <= k < |ParseNames(s)| ==> '\n' !in ParseNames(s)[k]
    decreases |s|
  {
    if s != [] {
      ParsedNamesAreLines(SkipLines(GetLine(s).rest, 4));
    }
  }

  lemma {:induction false} NamesOfRegular(entries: seq<Entry>)
    ensures forall i :: 0 <= i < |entries| && entries[i].regular ==> entries[i].name in Names(entries)
    ensures forall x :: x in Names(entries) ==>
                          exists i :: 0 <= i < |entries| && entries[i].regular && entries[i].name == x
  {
    if entries != [] {
      NamesOfRegular(entries[..|entries| - 1]);
    }
  }

  lemma LabelsAreValid()
    ensures LABELS.Valid()
  {
  }

  lemma {:induction false} SomethingRendered(l: Labels, entries: seq<Entry>)
    requires l.Valid() && Names(entries) != []
    ensures |RenderAll(l, entries)| >= 5
  {
    if Names(entries[..|entries| - 1]) != [] {
      SomethingRendered(l, entries[..|entries| - 1]);
    }
  }

  /** The text of a listing that is not empty: one empty line, then the entries. */
  lemma ListingBody(entries: seq<Entry>)
    requires Names(entries) != []
    ensures ListingText(entries) != [] && GetLine(ListingText(entries)) == Line([], RenderAll(LABELS, entries))
  {
    LabelsAreValid();
    SomethingRendered(LABELS, entries);
    GetLineOf([], RenderAll(LABELS, entries));
    assert ListingText(entries) == [] + "\n" + RenderAll(LABELS, entries);
  }

  lemma ParsedExactlyLineNames(l: Labels, entries: seq<Entry>)
    requires l.Valid() && forall i :: 0 <= i < |entries| ==> Stamped(entries[i])
    ensures ParseNames(RenderAll(l, entries)) == Names(entries)
            <==> forall i :: 0 <= i < |entries| && entries[i].regular ==> '\n' !in entries[i].name
  {
    NamesOfRegular(entries);
    var text := RenderAll(l, entries);
    if forall i :: 0 <= i < |entries| && entries[i].regular ==> '\n' !in entries[i].name {
      ParseRendered(l, entries, []);
      assert text + [] == text && Names(entries) + ParseNames([]) == Names(entries);
    } else {
      ParsedNamesAreLines(text);
    }
  }

  /**
   * For a listing that is not empty, parsing the printed text recovers exactly the names of the regular files, in
   * order, if and only if none of those names holds a newline.
   */
  lemma ListingRoundTrip(entries: seq<Entry>)
    requires forall i :: 0 <= i < |entries| ==> Stamped(entries[i])
    requires Names(entries) != []
    ensures ParseNames(GetLine(ListingText(entries)).rest) == Names(entries)
            <==> forall i :: 0 <= i < |entries| && entries[i].regular ==> '\n' !in entries[i].name
  {
    LabelsAreValid();
    ListingBody(entries);
    ParsedExactlyLineNames(LABELS, entries);
  }

  // ------------------------------------------------------------------ the whole text

  function Lines(s: bytes): seq<bytes>
    decreases |s|
  {
    if s == [] then [] else [GetLine(s).text] + Lines(GetLine(s).rest)
  }

  /** A timestamp without the newline it comes with. */
  function Chopped(stamp: bytes): bytes
    requires OneLine(stamp)
  {
    stamp[..|stamp| - 1]
  }

  /** What a reader sees of one file. */
  function Shown(l: Labels, e: Entry): seq<bytes>
    requires Stamped(e)
  {
    [e.name, l.created + Chopped(e.created), l.modified + Chopped(e.modified), l.accessed + Chopped(e.accessed), []]
  }

  function ShownAll(l: Labels, entries: seq<Entry>): seq<bytes>
    requires forall i :: 0 <= i < |entries| ==> Stamped(entries[i])
  {
    if entries == [] then []
    else
      var before, e := ShownAll(l, entries[..|entries| - 1]), entries[|entries| - 1];
      if e.regular then before + Shown(l, e) else before
  }

  lemma LabelledLine(tag: bytes, stamp: bytes, rest: bytes)
    requires '\n' !in tag && OneLine(stamp)
    ensures GetLine(tag + stamp + rest) == Line(tag + Chopped(stamp), rest)
  {
    assert tag + stamp + rest == (tag + Chopped(stamp)) + "\n" + rest;
    GetLineOf(tag + Chopped(stamp), rest);
  }

  lemma EntryLines(l: Labels, e: Entry, rest: bytes)
    requires l.Valid() && Stamped(e) && '\n' !in e.name
    ensures Lines(RenderEntry(l, e) + rest) == Shown(l, e) + Lines(rest)
  {
    var s4 := [] + "\n" + rest;
    var s3 := l.accessed + e.accessed + s4;
    var s2 := l.modified + e.modified + s3;
    var s1 := l.created + e.created + s2;
    RegroupStamps(l.created, e.created, l.modified, e.modified, l.accessed, e.accessed, rest);
    Regroup(NameLine(e), StampLines(l, e), rest);
    GetLineOf(e.name, s1);
    LabelledLine(l.created, e.created, s2);
    LabelledLine(l.modified, e.modified, s3);
    LabelledLine(l.accessed, e.accessed, s4);
    GetLineOf([], rest);
    var shown := Shown(l, e);
    assert Lines(s3) == [shown[3]] + Lines(s4) && Lines(s4) == [shown[4]] + Lines(rest);
    assert Lines(s1) == [shown[1]] + Lines(s2) && Lines(s2) == [shown[2]] + Lines(s3);
    FiveThen(shown[0], shown[1], shown[2], shown[3], shown[4], Lines(rest));
  }

  lemma FiveThen<T>(a: T, b: T, c: T, d: T, e: T, rest: seq<T>)
    ensures [a, b, c, d, e] + rest == [a] + ([b] + ([c] + ([d] + ([e] + rest))))
  {
  }

  lemma {:induction false} RenderedLines(l: Labels, entries: seq<Entry>, rest: bytes)
    requires l.Valid() && forall i :: 0 <= i < |entries| ==> Stamped(entries[i])
    requires forall i :: 0 <= i < |entries| && entries[i].regular ==> '\n' !in entries[i].name
    ensures Lines(RenderAll(l, entries) + rest) == ShownAll(l, entries) + Lines(rest)
    decreases |entries|
  {
    if entries == [] {
      assert RenderAll(l, entries) + rest == rest;
    } else {
      var before, e := entries[..|entries| - 1], entries[|entries| - 1];
      if e.regular {
        Regroup(RenderAll(l, before), RenderEntry(l, e), rest);
        RenderedLines(l, before, RenderEntry(l, e) + rest);
        EntryLines(l, e, rest);
        assert ShownAll(l, entries) + Lines(rest) == ShownAll(l, before) + (Shown(l, e) + Lines(rest));
      } else {
        assert RenderAll(l, entries) == RenderAll(l, before);
        RenderedLines(l, before, rest);
      }
    }
  }

  /**
   * Line by line, a listing with files in it is an empty line and then, for each regular file in order, its name, the
   * three labelled timestamps in the order created, modified, accessed, and an empty line; without files it says so.
   */
  lemma ListingLines(entries: seq<Entry>)
    requires forall i :: 0 <= i < |entries| ==> Stamped(entries[i])
    requires forall i :: 0 <= i < |entries| && entries[i].regular ==> '\n' !in entries[i].name
    ensures Names(entries) != [] ==> Lines(ListingText(entries)) == [[]] + ShownAll(LABELS, entries)
    ensures Names(entries) == [] ==> ListingText(entries) == EMPTY_FOLDER
  {
    if Names(entries) != [] {
      LinesOfText(entries, ListingText(entries));
    } else {
      NothingRendered(LABELS, entries);
    }
  }

  lemma LinesOfText(entries: seq<Entry>, text: bytes)
    requires forall i :: 0 <= i < |entries| ==> Stamped(entries[i])
    requires forall i :: 0 <= i < |entries| && entries[i].regular ==> '\n' !in entries[i].name
    requires Names(entries) != [] && text == ListingText(entries)
    ensures Lines(text) == [[]] + ShownAll(LABELS, entries)
  {
    LabelsAreValid();
    ListingBody(entries);
    WholeText(LABELS, entries);
    FirstLine(text, Line([], RenderAll(LABELS, entries)));
  }

  lemma FirstLine(text: bytes, l: Line)
    requires text != [] && GetLine(text) == l
    ensures Lines(text) == [l.text] + Lines(l.rest)
  {
  }

  lemma WholeText(l: Labels, entries: seq<Entry>)
    requires l.Valid() && forall i :: 0 <= i < |entries| ==> Stamped(entries[i])
    requires forall i :: 0 <= i < |entries| && entries[i].regular ==> '\n' !in entries[i].name
    ensures Lines(RenderAll(l, entries)) == ShownAll(l, entries)
  {
    RenderedLines(l, entries, []);
    assert RenderAll(l, entries) + [] == RenderAll(l, entries);
    assert Lines([]) == [] && ShownAll(l, entries) + [] == ShownAll(l, entries);
  }

  lemma {:induction false} NothingRendered(l: Labels, entries: seq<Entry>)
    requires Names(entries) == []
    ensures RenderAll(l, entries) == []
  {
    if entries != [] {
      var before := entries[..|entries| - 1];
      assert |Names(before)| <= |Names(entries)|;
      NothingRendered(l, before);
    }
  }
}
