/** Typical bookmark files and what the model says happens to them, and the
    edge cases of the removal scan. */
module Scenarios {
  import opened Wrappers
  import opened Text
  import opened Bookmarks
  import opened Navigation

  /** A blank line truncates: with two entries, a blank line and one more
      entry, only the first two are loaded. */
  lemma TruncationExample(a: string, b: string, d: string)
    requires '#' in a && '#' in b
    ensures Loaded([a, b, "\n", d]) == [a, b] + seq(8, _ => EmptySlot)
  {
    var lines := [a, b, "\n", d];
    var expected := [a, b] + seq(8, _ => EmptySlot);
    assert '#' !in lines[2];
    forall i | 0 <= i < Capacity ensures Loaded(lines)[i] == expected[i] {
      LoadedSlot(lines, i);
    }
  }

  /** The most bookmarks a file can show: ten lines that all contain '#'
      fill the last slot, so a further save is rejected. */
  lemma FullAfterTenEntries(lines: seq<string>)
    requires |lines| >= Capacity
    requires forall i :: 0 <= i < Capacity ==> '#' in lines[i]
    ensures Loaded(lines)[Capacity - 1] == lines[Capacity - 1] != EmptySlot
  {
    LoadedSlot(lines, Capacity - 1);
    assert '#' !in EmptySlot;
  }

  /** A file of at most ten lines that all contain '#' loads as those lines,
      followed by placeholders. */
  lemma LoadedAllHashed(lines: seq<string>)
    requires |lines| <= Capacity
    requires forall i :: 0 <= i < |lines| ==> '#' in lines[i]
    ensures Loaded(lines) == lines + seq(Capacity - |lines|, _ => EmptySlot)
  {
    var expected := lines + seq(Capacity - |lines|, _ => EmptySlot);
    forall i | 0 <= i < Capacity ensures Loaded(lines)[i] == expected[i] {
      LoadedSlot(lines, i);
    }
  }

  /** Removal by substring: text found in the second of two entries but not in
      the first removes the second line, and the file then loads as the first
      entry alone. */
  lemma RemoveBySubstring(a: string, b: string, text: string)
    requires '#' in a && '#' in b
    requires !Occurs(a, text) && Occurs(b, text)
    ensures FirstMatch(Loaded([a, b]), text) == Some(1)
    ensures RemoveAt([a, b], 1) == [a]
    ensures Loaded(RemoveAt([a, b], 1)) == [a] + seq(9, _ => EmptySlot)
  {
    LoadedAllHashed([a, b]);
    FirstMatchIs(Loaded([a, b]), text, 1);
    assert RemoveAt([a, b], 1) == [a];
    LoadedAllHashed([a]);
  }

  /** Text found neither in any line of the file nor in the placeholder
      matches no slot, so a removal changes nothing. */
  lemma RemoveNoMatch(lines: seq<string>, text: string)
    requires forall i :: 0 <= i < |lines| ==> !Occurs(lines[i], text)
    requires !Occurs(EmptySlot, text)
    ensures FirstMatch(Loaded(lines), text) == None
  {
    var slots := Loaded(lines);
    forall k | 0 <= k < |slots| ensures !Occurs(slots[k], text) {
      LoadedSlot(lines, k);
    }
  }

  /** An empty URL bar matches slot 0, whatever it holds, so a removal with
      nothing typed deletes the file's first line. */
  lemma EmptyTextMatchesFirst(slots: seq<string>)
    requires slots != []
    ensures FirstMatch(slots, "") == Some(0)
  {
    assert OccursAt(slots[0], "", 0);
  }

  /** A malformed second line leaves only the first entry loaded. */
  lemma MalformedSecondLine(a: string, junk: string, b: string)
    requires '#' in a && '#' !in junk
    ensures Loaded([a, junk, b]) == [a] + seq(9, _ => EmptySlot)
  {
    var lines := [a, junk, b];
    forall i | 0 <= i < Capacity ensures Loaded(lines)[i] == ([a] + seq(9, _ => EmptySlot))[i] {
      LoadedSlot(lines, i);
    }
  }

  /** The scan also matches placeholder slots: "mpt" finds slot 1 of a file
      whose second line is malformed, removing that line, after which the
      third line, hidden until then by the truncation, loads into slot 1. */
  lemma RemoveAtPlaceholder(a: string, junk: string, b: string)
    requires '#' in a && '#' !in junk && '#' in b && 'm' !in a
    ensures FirstMatch(Loaded([a, junk, b]), "mpt") == Some(1)
    ensures Loaded(RemoveAt([a, junk, b], 1)) == [a, b] + seq(8, _ => EmptySlot)
  {
    MalformedSecondLine(a, junk, b);
    var slots := Loaded([a, junk, b]);
    if Occurs(a, "mpt") {
      OccursHasHead(a, "mpt");
    }
    assert OccursAt(EmptySlot, "mpt", 1);
    FirstMatchIs(slots, "mpt", 1);
    assert RemoveAt([a, junk, b], 1) == [a, b];
    LoadedAllHashed([a, b]);
  }

  /** Opening a bookmark: "http://a.com" navigates, "a.com" is a broken link. */
  lemma OpenExamples()
    ensures OpenBookmark("http://a.com") == Navigate("http://a.com")
    ensures OpenBookmark("a.com") == BrokenLink
  {
    assert "http://a.com"[4..7] == SchemeSeparator;
    assert OccursAt("http://a.com", SchemeSeparator, 4);
    if Occurs("a.com", SchemeSeparator) {
      OccursHasHead("a.com", SchemeSeparator);
      assert false;
    }
  }
}
