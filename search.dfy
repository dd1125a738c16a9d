/**
  The search box's filter over the index.  A blank (or null) query shows every
  entry; any other query shows a date only when its file exists and the file's
  lower-cased content contains the lower-cased query.
*/
module Search {
  import opened Optional
  import opened DateKey
  import opened EntryIndex

  /** Character.isWhitespace: the separators and control characters Java counts as white space. */
  predicate IsWhitespace(c: char) {
    var n := c as int;
    || 9 <= n <= 13 || 28 <= n <= 32
    || n == 0x1680 || 0x2000 <= n <= 0x2006 || 0x2008 <= n <= 0x200A
    || n == 0x2028 || n == 0x2029 || n == 0x205F || n == 0x3000
  }

  /** String.isBlank: empty or white space only. */
  predicate IsBlank(s: string)
    ensures s == [] ==> IsBlank(s)
    ensures IsBlank(s) ==> Lower(s) == s
  {
    forall i :: 0 <= i < |s| ==> IsWhitespace(s[i])
  }

  /** String.toLowerCase restricted to ASCII letters. */
  function LowerChar(c: char): (r: char)
    ensures 'A' <= c <= 'Z' ==> 'a' <= r <= 'z' && r as int == c as int + 32
    ensures !('A' <= c <= 'Z') ==> r == c
  {
    if 'A' <= c <= 'Z' then (c as int + 32) as char else c
  }

  function Lower(s: string): (r: string)
    ensures |r| == |s|
  {
    seq(|s|, i requires 0 <= i < |s| => LowerChar(s[i]))
  }

  predicate OccursAt(pattern: string, text: string, i: int) {
    0 <= i && i + |pattern| <= |text| && text[i..i + |pattern|] == pattern
  }

  /** String.contains: pattern occurs somewhere in text. */
  predicate Contains(text: string, pattern: string)
    ensures pattern == [] ==> Contains(text, pattern)
    ensures pattern == text ==> Contains(text, pattern)
    ensures Contains(text, pattern) ==> |pattern| <= |text|
  {
    assert pattern == [] || pattern == text ==> OccursAt(pattern, text, 0);
    exists i :: 0 <= i <= |text| - |pattern| && OccursAt(pattern, text, i)
  }

  /** newText == null || newText.isBlank(): the filter that accepts every date. */
  predicate ShowsAll(query: Option<string>) {
    query.None? || IsBlank(query.value)
  }

  /** The predicate installed on the filtered list for a query. */
  predicate Visible(store: map<string, string>, query: Option<string>, d: Date)
    ensures Visible(store, query, d) && !ShowsAll(query) ==>
              FileName(d) in store && |query.value| <= |store[FileName(d)]|
  {
    if ShowsAll(query) then true
    else FileName(d) in store && Contains(Lower(store[FileName(d)]), Lower(query.value))
  }

  /** The entries the list shows: those the predicate accepts, in index order. */
  function Filter(entries: seq<Date>, store: map<string, string>, query: Option<string>): (r: seq<Date>)
    ensures forall d :: d in r <==> d in entries && Visible(store, query, d)
    ensures Subsequence(r, entries)
    ensures !ShowsAll(query) ==> forall d :: d in r ==> FileName(d) in store
  {
    if entries == [] then []
    else
      var rest := Filter(entries[1..], store, query);
      assert entries == [entries[0]] + entries[1..];
      if Visible(store, query, entries[0]) then
        assert ([entries[0]] + rest)[1..] == rest;
        [entries[0]] + rest
      else
        SubsequencePrepend(rest, entries[0], entries[1..]);
        rest
  }

  /** A blank or null query hides nothing. */
  lemma {:induction false} BlankQueryShowsAll(entries: seq<Date>, store: map<string, string>, query: Option<string>)
    requires ShowsAll(query)
    ensures Filter(entries, store, query) == entries
  {
    if entries != [] {
      BlankQueryShowsAll(entries[1..], store, query);
      assert entries == [entries[0]] + entries[1..];
    }
  }

  /** The shown list of a newest-first index is itself newest first. */
  lemma FilterKeepsOrder(entries: seq<Date>, store: map<string, string>, query: Option<string>)
    requires NewestFirst(entries)
    ensures NewestFirst(Filter(entries, store, query))
  {
    SubsequenceKeepsNewestFirst(Filter(entries, store, query), entries);
  }

  lemma LowerKeepsBlank(s: string)
    ensures IsBlank(Lower(s)) <==> IsBlank(s)
  {
    forall i | 0 <= i < |s| ensures IsWhitespace(Lower(s)[i]) <==> IsWhitespace(s[i]) {
      assert Lower(s)[i] == LowerChar(s[i]);
    }
  }

  /** Queries that differ only in the case of letters show the same dates. */
  lemma SearchIgnoresCase(store: map<string, string>, q1: string, q2: string, d: Date)
    requires Lower(q1) == Lower(q2)
    ensures Visible(store, Some(q1), d) == Visible(store, Some(q2), d)
  {
    LowerKeepsBlank(q1);
    LowerKeepsBlank(q2);
  }

  lemma VacationMatches(content: string)
    requires content == "Planning a VACATION"
    ensures Contains(Lower(content), Lower("vacation"))
  {
    assert Lower("vacation") == "vacation";
    assert Lower(content)[11..19] == "vacation";
    assert OccursAt("vacation", Lower(content), 11);
  }

  lemma BeachDoesNotMatch(content: string)
    requires content == "Went to the beach"
    ensures !Contains(Lower(content), Lower("vacation"))
  {
    var text := Lower(content);
    assert Lower("vacation") == "vacation";
    forall i | 0 <= i <= |text| - 8 ensures !OccursAt("vacation", text, i) {
      assert text[i] == LowerChar(content[i]);
      assert text[i] != 'v';
      assert text[i..i + 8][0] == text[i];
    }
  }

  /** Two entries, one mentioning a vacation in capitals: only that one matches "vacation". */
  lemma VacationExample(d1: Date, d2: Date, store: map<string, string>)
    requires d1 == CalendarDate(2024, 1, 1) && d2 == CalendarDate(2024, 1, 2)
    requires store == map[FileName(d1) := "Went to the beach", FileName(d2) := "Planning a VACATION"]
    ensures Filter([d2, d1], store, Some("vacation")) == [d2]
  {
    FileNameInjective(d1, d2);
    assert !IsBlank("vacation") by { assert !IsWhitespace("vacation"[0]); }
    VacationMatches(store[FileName(d2)]);
    BeachDoesNotMatch(store[FileName(d1)]);
    assert Visible(store, Some("vacation"), d2);
    assert !Visible(store, Some("vacation"), d1);
    assert [d2, d1][1..] == [d1] && [d1][1..] == [];
  }
}
