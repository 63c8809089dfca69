/** The pure part of canvas.py: the store-list record, the case folding and
    substring test the search filter uses, and `_gen_activity`, which renders
    one record as a row of the result list. */
module Catalog {

  /** One record of the store list. Field k models index k of the source's
      record; the names follow how `_gen_activity` reads the indices. */
  datatype Entry = Entry(
    icon: string,         // [0] icon handle
    status: string,       // [1] "E" marks an experimental activity
    name: string,         // [2]
    description: string,  // [3]
    version: string,      // [4]
    minVersion: string,   // [5] oldest platform release it works with
    maxVersion: string,   // [6] newest platform release it works with
    updated: string,      // [7]
    downloads: string,    // [8]
    homepage: string)     // [9]

  /** One row of the result list store: icon name, name markup, details
      markup and status text, in column order. */
  datatype Row = Row(icon: string, name: string, details: string, status: string)

  const EXPERIMENTAL := "Experimental"
  const PUBLIC := "Public"
  const NEWLINE := '\n'

  // ---------------------------------------------------------------------------
  // Case folding (byte-string `lower()` under the C or a UTF-8 locale: only
  // ASCII letters change; a single-byte locale's other capitals are not
  // modelled)

  predicate IsUpper(c: char) {
    'A' <= c <= 'Z'
  }

  function LowerChar(c: char): (d: char)
    ensures !IsUpper(d)
    ensures !IsUpper(c) ==> d == c
    ensures IsUpper(c) ==> d as int == c as int + 32
  {
    if IsUpper(c) then (c as int + 32) as char else c
  }

  /** `s.lower()`: same length, each character folded on its own, so no
      upper-case letter is left and every other character is kept. */
  function Lower(s: string): (r: string)
    ensures |r| == |s|
    ensures forall i :: 0 <= i < |s| ==> r[i] == LowerChar(s[i])
    ensures forall i :: 0 <= i < |r| ==> !IsUpper(r[i])
    ensures forall i :: 0 <= i < |s| && !IsUpper(s[i]) ==> r[i] == s[i]
  {
    if s == [] then [] else [LowerChar(s[0])] + Lower(s[1..])
  }

  /** Folding twice is folding once: a lower-cased string has nothing left
      for `lower()` to change. */
  lemma LowerIdempotent(s: string)
    ensures Lower(Lower(s)) == Lower(s)
  {
  }

  /** A string without upper-case letters is its own lower-case form. */
  lemma LowerKeeps(s: string)
    requires forall i :: 0 <= i < |s| ==> !IsUpper(s[i])
    ensures Lower(s) == s
  {
  }

  // ---------------------------------------------------------------------------
  // Substring test (Python's `w in s` on strings)

  /** Whether `w` occurs in `s` starting at position `i`. */
  ghost predicate OccursAt(w: string, s: string, i: int) {
    0 <= i <= |s| - |w| && s[i..i + |w|] == w
  }

  ghost predicate IsSubstring(w: string, s: string) {
    exists i :: OccursAt(w, s, i)
  }

  lemma SubstringShift(w: string, s: string)
    requires s != [] && !(w <= s)
    ensures IsSubstring(w, s) <==> IsSubstring(w, s[1..])
  {
    if IsSubstring(w, s) {
      var i :| OccursAt(w, s, i);
      assert i > 0;
      assert s[1..][i - 1..i - 1 + |w|] == w;
      assert OccursAt(w, s[1..], i - 1);
    }
    if IsSubstring(w, s[1..]) {
      var i :| OccursAt(w, s[1..], i);
      assert s[i + 1..i + 1 + |w|] == w;
      assert OccursAt(w, s, i + 1);
    }
  }

  /** `w in s`, decided by trying every start position from the left. */
  function Contains(s: string, w: string): (r: bool)
    ensures r <==> IsSubstring(w, s)
    decreases |s|
  {
    if w <= s then
      assert OccursAt(w, s, 0);
      true
    else if s == [] then
      false
    else
      SubstringShift(w, s);
      Contains(s[1..], w)
  }

  /** The empty query occurs in every string. */
  lemma EmptyOccursEverywhere(s: string)
    ensures Contains(s, "")
  {
    assert OccursAt("", s, 0);
  }

  // ---------------------------------------------------------------------------
  // The search filter

  /** Whether a record is kept for the (already lower-cased) query `w`:
      fields [1] and [2] are lower-cased and searched for `w`. */
  predicate Hit(e: Entry, w: string) {
    Contains(Lower(e.status), w) || Contains(Lower(e.name), w)
  }

  /** The records of `catalog` that the filter keeps, in catalog order. */
  function Select(catalog: seq<Entry>, w: string): (r: seq<Entry>)
    ensures |r| <= |catalog|
    ensures forall e :: e in r <==> e in catalog && Hit(e, w)
  {
    if catalog == [] then []
    else
      var init := catalog[..|catalog| - 1];
      var last := catalog[|catalog| - 1];
      assert catalog == init + [last];
      Select(init, w) + (if Hit(last, w) then [last] else [])
  }

  /** Filtering one more record at the end keeps it exactly when it hits. */
  lemma SelectSnoc(s: seq<Entry>, e: Entry, w: string)
    ensures Select(s + [e], w) == Select(s, w) + (if Hit(e, w) then [e] else [])
  {
    assert (s + [e])[..|s|] == s;
  }

  /** Filtering a concatenation filters each part in turn: the kept records
      keep their catalog order. */
  lemma {:induction false} SelectAppend(a: seq<Entry>, b: seq<Entry>, w: string)
    ensures Select(a + b, w) == Select(a, w) + Select(b, w)
    decreases |b|
  {
    if b == [] {
      assert a + b == a;
    } else {
      var init := b[..|b| - 1];
      var last := b[|b| - 1];
      var tail := if Hit(last, w) then [last] else [];
      assert b == init + [last];
      assert a + b == (a + init) + [last];
      calc {
        Select(a + b, w);
        { SelectSnoc(a + init, last, w); }
        Select(a + init, w) + tail;
        { SelectAppend(a, init, w); }
        (Select(a, w) + Select(init, w)) + tail;
        Select(a, w) + (Select(init, w) + tail);
        { SelectSnoc(init, last, w); }
        Select(a, w) + Select(b, w);
      }
    }
  }

  /** The empty query keeps every record: an empty search shows the whole
      catalog, in catalog order. */
  lemma {:induction false} EmptyQuerySelectsAll(catalog: seq<Entry>)
    ensures Select(catalog, "") == catalog
    decreases |catalog|
  {
    if catalog != [] {
      var init := catalog[..|catalog| - 1];
      EmptyQuerySelectsAll(init);
      EmptyOccursEverywhere(Lower(catalog[|catalog| - 1].status));
      assert catalog == init + [catalog[|catalog| - 1]];
    }
  }

  /** The filter reads field [1], which `_gen_activity` shows as the status:
      every experimental record ("E") matches the query "e", whatever its
      name. */
  lemma {:induction false} StatusFieldIsSearched(e: Entry)
    requires e.status == "E"
    ensures Hit(e, "e")
  {
    assert Lower("E") == "e";
    assert OccursAt("e", "e", 0);
  }

  lemma ScenarioLower()
    ensures Lower("") == "" && Lower("paint") == "paint" && Lower("music") == "music"
  {
    LowerKeeps("");
    LowerKeeps("paint");
    LowerKeeps("music");
  }

  lemma ScenarioSubstrings()
    ensures Contains("paint", "pa") && !Contains("music", "pa")
    ensures !Contains("paint", "play") && !Contains("music", "play")
    ensures !Contains("", "pa") && !Contains("", "play")
  {
    assert OccursAt("pa", "paint", 0);
    assert !OccursAt("pa", "music", 0) by { assert "music"[0..2][0] == 'm'; }
    assert !OccursAt("pa", "music", 1) by { assert "music"[1..3][0] == 'u'; }
    assert !OccursAt("pa", "music", 2) by { assert "music"[2..4][0] == 's'; }
    assert !OccursAt("pa", "music", 3) by { assert "music"[3..5][0] == 'i'; }
    assert !OccursAt("play", "music", 0) by { assert "music"[0..4][0] == 'm'; }
    assert !OccursAt("play", "music", 1) by { assert "music"[1..5][0] == 'u'; }
    assert !OccursAt("play", "paint", 0) by { assert "paint"[0..4][1] == 'a'; }
    assert !OccursAt("play", "paint", 1) by { assert "paint"[1..5][0] == 'a'; }
  }

  /** The filter does not read field [3], which `_gen_activity` shows as the
      description: whatever that field holds, a record is selected exactly
      when its field [1] or [2] holds the query, so a query found only in the
      description selects nothing, and one found in the name selects the
      record. */
  lemma DescriptionIsNotSearched(e: Entry, description: string, w: string)
    ensures Select([e.(description := description)], w) ==
      (if Hit(e, w) then [e.(description := description)] else [])
    ensures !Contains(Lower(e.status), w) && !Contains(Lower(e.name), w) ==>
      Select([e.(description := description)], w) == []
    ensures Contains(Lower(e.name), w) ==>
      Select([e.(description := description)], w) == [e.(description := description)]
  {
    var d := e.(description := description);
    assert [d][..0] == [] && [e][..0] == [];
    assert Hit(d, w) == Hit(e, w);
  }

  /** The filter on a two-record catalog keeps each record that hits, in
      order. */
  lemma SelectPair(a: Entry, b: Entry, w: string)
    ensures Select([a, b], w) ==
      (if Hit(a, w) then [a] else []) + (if Hit(b, w) then [b] else [])
  {
    assert [a, b][..1] == [a];
    assert [a][..0] == [];
  }

  lemma ScenarioHits(paint: Entry, music: Entry)
    requires paint.status == "" && paint.name == "paint"
    requires music.status == "" && music.name == "music"
    ensures Hit(paint, "pa") && !Hit(music, "pa")
    ensures !Hit(paint, "play") && !Hit(music, "play")
  {
    ScenarioLower();
    ScenarioSubstrings();
  }

  /** The two-record scenario behind the lemma above: "pa" occurs in the
      name "paint" and selects it; "play" occurs only in the description
      "play sound" and selects nothing. */
  lemma DescriptionScenario(paint: Entry, music: Entry)
    requires paint.status == "" && paint.name == "paint" && paint.description == "draw pictures"
    requires music.status == "" && music.name == "music" && music.description == "play sound"
    ensures Select([paint, music], "pa") == [paint]
    ensures Select([paint, music], "play") == []
  {
    ScenarioHits(paint, music);
    SelectPair(paint, music, "pa");
    SelectPair(paint, music, "play");
  }

  // ---------------------------------------------------------------------------
  // Rendering a record (`_gen_activity`)

  /** One `<b>Label: </b>value` line of the details column. */
  function Line(caption: string, value: string): string {
    "<b>" + caption + ": </b>" + value
  }

  /** The six lines of the details column, top to bottom. */
  function DetailLines(e: Entry): (ls: seq<string>)
    ensures |ls| == 6
  {
    [ Line("Description", e.description),
      Line("Version", e.version),
      Line("Works with", e.minVersion + " - " + e.maxVersion),
      Line("Updated", e.updated),
      Line("Downloads", e.downloads),
      Line("Homepage", e.homepage) ]
  }

  /** The lines `ls` with `c` between consecutive ones. */
  function Join(ls: seq<string>, c: char): string {
    if ls == [] then ""
    else if |ls| == 1 then ls[0]
    else ls[0] + [c] + Join(ls[1..], c)
  }

  /** The pieces of `s` between occurrences of `c`. */
  function Split(s: string, c: char): (r: seq<string>)
    ensures |r| >= 1
  {
    if s == [] then [""]
    else
      var rest := Split(s[1..], c);
      if s[0] == c then [""] + rest else [[s[0]] + rest[0]] + rest[1..]
  }

  lemma {:induction false} SplitWithout(a: string, c: char)
    requires c !in a
    ensures Split(a, c) == [a]
  {
    if a != [] {
      SplitWithout(a[1..], c);
      assert [a[0]] + a[1..] == a;
    }
  }

  lemma {:induction false} SplitAt(a: string, b: string, c: char)
    requires c !in a
    ensures Split(a + [c] + b, c) == [a] + Split(b, c)
    decreases |a|
  {
    if a == [] {
      assert a + [c] + b == [c] + b;
      assert ([c] + b)[1..] == b;
    } else {
      SplitAt(a[1..], b, c);
      assert (a + [c] + b)[1..] == a[1..] + [c] + b;
      assert [a[0]] + a[1..] == a;
    }
  }

  /** Splitting undoes joining when no line holds the separator. */
  lemma {:induction false} SplitJoin(ls: seq<string>, c: char)
    requires ls != []
    requires forall i :: 0 <= i < |ls| ==> c !in ls[i]
    ensures Split(Join(ls, c), c) == ls
  {
    if |ls| == 1 {
      SplitWithout(ls[0], c);
    } else {
      SplitJoin(ls[1..], c);
      SplitAt(ls[0], Join(ls[1..], c), c);
      assert [ls[0]] + ls[1..] == ls;
    }
  }

  /** Whether none of the fields shown in the details column holds a line
      break. */
  predicate SingleLineFields(e: Entry) {
    NEWLINE !in e.description && NEWLINE !in e.version &&
    NEWLINE !in e.minVersion && NEWLINE !in e.maxVersion &&
    NEWLINE !in e.updated && NEWLINE !in e.downloads && NEWLINE !in e.homepage
  }

  /** `_gen_activity`: the icon handle, the name in bold, the six labelled
      details lines joined by line breaks, and the status text, which is
      "Experimental" exactly when field [1] is "E". */
  function GenActivity(e: Entry): (row: Row)
    ensures row.icon == e.icon
    ensures row.name == "<b>" + e.name + "</b>"
    ensures row.status == EXPERIMENTAL <==> e.status == "E"
    ensures row.status == PUBLIC <==> e.status != "E"
  {
    var details := Join(DetailLines(e), NEWLINE);
    var status := if e.status == "E" then EXPERIMENTAL else PUBLIC;
    Row(e.icon, "<b>" + e.name + "</b>", details, status)
  }

  /** The details column reads back, line by line, as the six labelled
      fields, provided no field breaks its own line. */
  lemma DetailsRoundTrip(e: Entry)
    requires SingleLineFields(e)
    ensures Split(GenActivity(e).details, NEWLINE) == DetailLines(e)
  {
    assert NEWLINE !in " - ";
    assert NEWLINE !in e.minVersion + " - " + e.maxVersion;
    SplitJoin(DetailLines(e), NEWLINE);
  }

  /** The rows for a sequence of records, one per record, in order. */
  function Render(es: seq<Entry>): (rs: seq<Row>)
    ensures |rs| == |es|
    ensures forall i :: 0 <= i < |es| ==> rs[i] == GenActivity(es[i])
  {
    seq(|es|, i requires 0 <= i < |es| => GenActivity(es[i]))
  }
}
