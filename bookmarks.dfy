/** The bookmark slots of the browser window as pure functions of the lines of
    the bookmark file: what loading stores in the ten slots, what the ten
    bookmark buttons show, which slot a removal picks, which lines a removal
    keeps, and the line a save appends. */
module Bookmarks {
  import opened Wrappers
  import opened Text

  /** The number of bookmark slots, and of bookmark buttons. */
  const Capacity: nat := 10

  /** The placeholder stored in, and shown for, a slot without a bookmark. */
  const EmptySlot: string := "Empty"

  /** The line a save appends for a page: title, '#', URL, newline. */
  function Entry(title: string, url: string): string {
    title + "#" + url + "\n"
  }

  /** What `readline` returns after `i` earlier calls: line `i`, or "" once
      the file is exhausted. */
  function ReadLine(lines: seq<string>, i: nat): string {
    if i < |lines| then lines[i] else ""
  }

  /** The load loop from slot `count` on, with its sticky `clear` flag: a
      missing line or a line without '#' switches the flag on, and from then on
      every slot is stored as `EmptySlot`; otherwise the raw line is stored. */
  function LoadFrom(lines: seq<string>, count: nat, clear: bool): (slots: seq<string>)
    requires count <= Capacity
    decreases Capacity - count
    ensures |slots| == Capacity - count
  {
    if count == Capacity then []
    else
      var line := ReadLine(lines, count);
      var clear' := clear || '#' !in line;
      [if clear' then EmptySlot else line] + LoadFrom(lines, count + 1, clear')
  }

  /** The ten slots loaded from the file's lines. */
  function Loaded(lines: seq<string>): (slots: seq<string>)
    ensures |slots| == Capacity
  {
    LoadFrom(lines, 0, false)
  }

  /** Lines `lo..hi` all exist and all contain '#'. */
  ghost predicate Hashed(lines: seq<string>, lo: nat, hi: nat) {
    hi < |lines| && forall j :: lo <= j <= hi ==> '#' in lines[j]
  }

  /** Slot `i` can hold a bookmark: lines 0..i all exist and contain '#'. */
  ghost predicate Decodable(lines: seq<string>, i: nat) {
    Hashed(lines, 0, i)
  }

  /** The load loop's flag after reading `n` lines: on once some line among
      the first `n` is missing or has no '#'. */
  ghost predicate ClearAfter(lines: seq<string>, n: nat) {
    n > 0 && !Decodable(lines, n - 1)
  }

  /** Reading line `n` turns the flag on when the line is missing or has no
      '#', and never turns it off. */
  lemma ClearAfterStep(lines: seq<string>, n: nat)
    ensures ClearAfter(lines, n + 1) == (ClearAfter(lines, n) || !(n < |lines| && '#' in lines[n]))
  {
    if n > 0 {
      assert Decodable(lines, n) <==> Decodable(lines, n - 1) && n < |lines| && '#' in lines[n];
    }
  }

  /** The clear test of the load loop is "no '#' in the line". */
  lemma ClearTest(line: string)
    ensures (line == "" || Find(line, "#") == -1) <==> '#' !in line
  {
    FindChar(line, '#');
  }

  /** The flag the load loop passes on after reading line `count`. */
  ghost function NextClear(lines: seq<string>, count: nat, clear: bool): bool {
    clear || !(count < |lines| && '#' in lines[count])
  }

  /** One step of the load loop: the slot it stores, and the flag it passes on. */
  lemma LoadFromStep(lines: seq<string>, count: nat, clear: bool)
    requires count < Capacity
    ensures LoadFrom(lines, count, clear)[0] ==
              (if NextClear(lines, count, clear) then EmptySlot else lines[count])
    ensures LoadFrom(lines, count, clear)[1..] == LoadFrom(lines, count + 1, NextClear(lines, count, clear))
  {
  }

  /** What the load loop stores in slot `i` when it reaches slot `count`
      with flag `clear`: the raw line when the flag is off and lines
      `count..i` all exist and contain '#', the placeholder otherwise. */
  ghost function StoredAt(lines: seq<string>, count: nat, clear: bool, i: nat): string {
    if !clear && Hashed(lines, count, i) then lines[i] else EmptySlot
  }

  /** The slot a step of the load loop stores. */
  lemma LoadFromHead(lines: seq<string>, count: nat, clear: bool)
    requires count < Capacity
    ensures LoadFrom(lines, count, clear)[0] == StoredAt(lines, count, clear, count)
  {
    LoadFromStep(lines, count, clear);
    assert (!clear && Hashed(lines, count, count)) == !NextClear(lines, count, clear);
  }

  /** A later slot is what the rest of the loop stores there, given the flag
      the step passes on. */
  lemma LoadFromShift(lines: seq<string>, count: nat, clear: bool, i: nat)
    requires count < i < Capacity
    requires LoadFrom(lines, count + 1, NextClear(lines, count, clear))[i - (count + 1)] ==
               StoredAt(lines, count + 1, NextClear(lines, count, clear), i)
    ensures LoadFrom(lines, count, clear)[i - count] == StoredAt(lines, count, clear, i)
  {
    var next := NextClear(lines, count, clear);
    LoadFromStep(lines, count, clear);
    assert LoadFrom(lines, count, clear)[i - count] == LoadFrom(lines, count + 1, next)[i - (count + 1)];
    assert (!clear && Hashed(lines, count, i)) == (!next && Hashed(lines, count + 1, i));
  }

  /** Slot `i` as the load loop started at `count` stores it. */
  lemma {:induction false} LoadFromSlot(lines: seq<string>, count: nat, clear: bool, i: nat)
    requires count <= i < Capacity
    ensures LoadFrom(lines, count, clear)[i - count] == StoredAt(lines, count, clear, i)
    decreases i - count
  {
    if i == count {
      LoadFromHead(lines, count, clear);
    } else {
      LoadFromSlot(lines, count + 1, NextClear(lines, count, clear), i);
      LoadFromShift(lines, count, clear, i);
    }
  }

  /** Slot `i` holds the raw line `i` exactly when lines 0..i all exist and all
      contain '#'; otherwise it holds `EmptySlot`. */
  lemma LoadedSlot(lines: seq<string>, i: nat)
    requires i < Capacity
    ensures Loaded(lines)[i] == if Decodable(lines, i) then lines[i] else EmptySlot
  {
    LoadFromSlot(lines, 0, false, i);
  }

  /** A slot that holds a bookmark holds a line containing '#'; so it is never
      the placeholder. */
  lemma LoadedOccupied(lines: seq<string>, i: nat)
    requires i < Capacity && Loaded(lines)[i] != EmptySlot
    ensures Decodable(lines, i) && Loaded(lines)[i] == lines[i] && '#' in lines[i]
  {
    LoadedSlot(lines, i);
  }

  /** Truncation: once a slot is `EmptySlot`, every later slot is too, whatever
      the later lines of the file hold. */
  lemma LoadedTruncation(lines: seq<string>, i: nat, j: nat)
    requires i <= j < Capacity
    requires Loaded(lines)[i] == EmptySlot
    ensures Loaded(lines)[j] == EmptySlot
  {
    LoadedSlot(lines, i);
    LoadedSlot(lines, j);
    assert '#' !in EmptySlot;
    assert Decodable(lines, j) ==> Decodable(lines, i);
  }

  /** What one bookmark button shows: its text, its status tip, and the URL of
      the open-bookmark callback connected to it, if one is connected. */
  datatype View = View(caption: string, tip: string, link: Option<string>)

  const EmptyView: View := View(EmptySlot, EmptySlot, None)

  /** The callback URLs a view adds to its button's connections. */
  function Links(v: View): seq<string> {
    if v.link.Some? then [v.link.value] else []
  }

  /** The button text of a stored line: the text before the first '#'
      (Python `x[0:x.find('#')]`). */
  function Label(x: string): string {
    Slice(x, 0, Find(x, "#"))
  }

  /** The status tip of a stored line: the text after the first '#' without
      the line's last character (Python `x[x.find('#') + 1:-1]`). */
  function Tip(x: string): string {
    Slice(x, Find(x, "#") + 1, -1)
  }

  /** The view of an occupied slot: its label and tip, with the tip connected
      as the URL to open. */
  function Shown(x: string): View {
    View(Label(x), Tip(x), Some(Tip(x)))
  }

  /** The display loop from slot `count` on, with its sticky `clear` flag: the
      first slot equal to `EmptySlot` switches the flag on. */
  function RenderFrom(slots: seq<string>, count: nat, clear: bool): (views: seq<View>)
    requires count <= |slots|
    decreases |slots| - count
    ensures |views| == |slots| - count
  {
    if count == |slots| then []
    else
      var clear' := clear || slots[count] == EmptySlot;
      [if clear' then EmptyView else Shown(slots[count])] + RenderFrom(slots, count + 1, clear')
  }

  /** The views of all slots. */
  function Rendered(slots: seq<string>): (views: seq<View>)
    ensures |views| == |slots|
  {
    RenderFrom(slots, 0, false)
  }

  /** Some slot among `lo..hi` is the placeholder. */
  ghost predicate EmptyAmong(slots: seq<string>, lo: nat, hi: nat) {
    exists j :: lo <= j <= hi && j < |slots| && slots[j] == EmptySlot
  }

  /** The display loop's flag after `n` slots: on once one of them is the
      placeholder. */
  ghost predicate PlaceholderBefore(slots: seq<string>, n: nat) {
    n > 0 && EmptyAmong(slots, 0, n - 1)
  }

  /** Showing slot `n` turns the flag on when it is the placeholder, and
      never turns it off. */
  lemma PlaceholderStep(slots: seq<string>, n: nat)
    requires n < |slots|
    ensures PlaceholderBefore(slots, n + 1) == (PlaceholderBefore(slots, n) || slots[n] == EmptySlot)
  {
    if EmptyAmong(slots, 0, n) && slots[n] != EmptySlot {
      var j :| 0 <= j <= n && j < |slots| && slots[j] == EmptySlot;
      assert EmptyAmong(slots, 0, n - 1);
    }
    assert PlaceholderBefore(slots, n) ==> EmptyAmong(slots, 0, n);
    assert slots[n] == EmptySlot ==> EmptyAmong(slots, 0, n);
  }

  /** One step of the display loop: the view it gives, and the flag it passes on. */
  lemma RenderFromStep(slots: seq<string>, count: nat, clear: bool)
    requires count < |slots|
    ensures var clear' := clear || slots[count] == EmptySlot;
            && RenderFrom(slots, count, clear)[0] == (if clear' then EmptyView else Shown(slots[count]))
            && RenderFrom(slots, count, clear)[1..] == RenderFrom(slots, count + 1, clear')
  {
  }

  /** What the display loop gives slot `i` when it reaches slot `count` with
      flag `clear`: the placeholder view once the flag is on or a slot among
      `count..i` is the placeholder, the slot's own view otherwise. */
  ghost function ViewAt(slots: seq<string>, count: nat, clear: bool, i: nat): View
    requires i < |slots|
  {
    if clear || EmptyAmong(slots, count, i) then EmptyView else Shown(slots[i])
  }

  /** The view a step of the display loop gives. */
  lemma RenderFromHead(slots: seq<string>, count: nat, clear: bool)
    requires count < |slots|
    ensures RenderFrom(slots, count, clear)[0] == ViewAt(slots, count, clear, count)
  {
    RenderFromStep(slots, count, clear);
    assert EmptyAmong(slots, count, count) <==> slots[count] == EmptySlot;
  }

  /** A later slot's view is the one the rest of the loop gives it, with the
      flag the step passes on. */
  lemma RenderFromShift(slots: seq<string>, count: nat, clear: bool, i: nat)
    requires count < i < |slots|
    requires RenderFrom(slots, count + 1, clear || slots[count] == EmptySlot)[i - (count + 1)] ==
               ViewAt(slots, count + 1, clear || slots[count] == EmptySlot, i)
    ensures RenderFrom(slots, count, clear)[i - count] == ViewAt(slots, count, clear, i)
  {
    var clear' := clear || slots[count] == EmptySlot;
    RenderFromStep(slots, count, clear);
    assert RenderFrom(slots, count, clear)[i - count] == RenderFrom(slots, count + 1, clear')[i - (count + 1)];
    if EmptyAmong(slots, count, i) && slots[count] != EmptySlot {
      var j :| count <= j <= i && j < |slots| && slots[j] == EmptySlot;
      assert count + 1 <= j;
    }
    assert EmptyAmong(slots, count + 1, i) ==> EmptyAmong(slots, count, i);
  }

  /** Slot `i` as the display loop started at `count` shows it. */
  lemma {:induction false} RenderFromSlot(slots: seq<string>, count: nat, clear: bool, i: nat)
    requires count <= i < |slots|
    ensures RenderFrom(slots, count, clear)[i - count] == ViewAt(slots, count, clear, i)
    decreases i - count
  {
    if i == count {
      RenderFromHead(slots, count, clear);
    } else {
      RenderFromSlot(slots, count + 1, clear || slots[count] == EmptySlot, i);
      RenderFromShift(slots, count, clear, i);
    }
  }

  /** Slot `i` shows the placeholder, with nothing connected, exactly when it or
      an earlier slot is the placeholder; otherwise it shows the label and tip
      of its stored line and connects the tip. */
  lemma RenderedSlot(slots: seq<string>, i: nat)
    requires i < |slots|
    ensures Rendered(slots)[i] ==
              if EmptyAmong(slots, 0, i) then EmptyView else Shown(slots[i])
  {
    RenderFromSlot(slots, 0, false, i);
  }

  /** For a line whose first '#' is at `k`, the label is the text before it
      and the tip is the text after it minus the line's last character,
      whether or not that character is a newline. */
  lemma LabelTip(x: string, k: nat)
    requires k < |x| && x[k] == '#' && '#' !in x[..k]
    ensures Label(x) == x[..k]
    ensures Tip(x) == if k + 1 <= |x| - 1 then x[k + 1..|x| - 1] else ""
  {
    FindChar(x, '#');
    var r := Find(x, "#");
    forall j | 0 <= j < k ensures x[j] != '#' {
      assert x[..k][j] == x[j];
    }
    assert r == k;
  }

  /** Displaying loaded slots: a slot from the first undecodable line on shows
      the placeholder and connects nothing. */
  lemma DisplayTruncated(lines: seq<string>, i: nat)
    requires i < Capacity && !Decodable(lines, i)
    ensures Rendered(Loaded(lines))[i] == EmptyView
  {
    LoadedSlot(lines, i);
    RenderedSlot(Loaded(lines), i);
  }

  /** The view of a line whose first '#' is at `k`. */
  lemma ShownEntry(x: string, k: nat)
    requires k < |x| && x[k] == '#' && '#' !in x[..k]
    ensures var tip := if k + 1 <= |x| - 1 then x[k + 1..|x| - 1] else "";
            Shown(x) == View(x[..k], tip, Some(tip))
  {
    LabelTip(x, k);
  }

  /** Before the first undecodable line, no loaded slot is the placeholder. */
  lemma LoadedPrefixOccupied(lines: seq<string>, i: nat)
    requires i < Capacity && Decodable(lines, i)
    ensures !EmptyAmong(Loaded(lines), 0, i)
  {
    var slots := Loaded(lines);
    forall j | 0 <= j <= i ensures slots[j] != EmptySlot {
      LoadedSlot(lines, j);
      assert '#' in lines[j];
      assert '#' !in EmptySlot;
    }
  }

  /** Displaying loaded slots: a slot before the first undecodable line shows
      the text before the line's first '#' (at `k`) as label, the text after it
      minus the last character as tip, and connects that tip. */
  lemma DisplayEntry(lines: seq<string>, i: nat, k: nat)
    requires i < Capacity && Decodable(lines, i)
    requires k < |lines[i]| && lines[i][k] == '#' && '#' !in lines[i][..k]
    ensures var x := lines[i];
            var tip := if k + 1 <= |x| - 1 then x[k + 1..|x| - 1] else "";
            Rendered(Loaded(lines))[i] == View(x[..k], tip, Some(tip))
  {
    LoadedPrefixOccupied(lines, i);
    RenderedSlot(Loaded(lines), i);
    LoadedSlot(lines, i);
    ShownEntry(lines[i], k);
  }

  /** The removal scan from slot `count` on: the first slot whose stored
      string contains `text` as a substring (the placeholder included). */
  function MatchFrom(slots: seq<string>, text: string, count: nat): (m: Option<nat>)
    requires count <= |slots|
    decreases |slots| - count
    ensures m.Some? ==> count <= m.value < |slots| && Occurs(slots[m.value], text)
    ensures forall j :: count <= j < |slots| && (m.None? || j < m.value) ==> !Occurs(slots[j], text)
  {
    if count == |slots| then None
    else
      FindSpec(slots[count], text);
      if Find(slots[count], text) > -1 then Some(count)
      else MatchFrom(slots, text, count + 1)
  }

  /** The slot a removal picks: the smallest index whose stored string contains
      `text`, or None when no slot does. */
  function FirstMatch(slots: seq<string>, text: string): (m: Option<nat>)
    ensures m.Some? ==> m.value < |slots| && Occurs(slots[m.value], text)
    ensures m.Some? ==> forall j :: 0 <= j < m.value ==> !Occurs(slots[j], text)
    ensures m.None? <==> forall j :: 0 <= j < |slots| ==> !Occurs(slots[j], text)
  {
    MatchFrom(slots, text, 0)
  }

  /** The slot the scan picks is determined by the slots that contain the
      text: the first of them. */
  lemma FirstMatchIs(slots: seq<string>, text: string, k: nat)
    requires k < |slots| && Occurs(slots[k], text)
    requires forall j :: 0 <= j < k ==> !Occurs(slots[j], text)
    ensures FirstMatch(slots, text) == Some(k)
  {
  }

  /** The lines a removal writes back: all but the one at 0-based index `k`
      (the 1-based line `k + 1`), in their order; all of them when the file
      has no such line. */
  function RemoveAt(ls: seq<string>, k: nat): (r: seq<string>)
    ensures k < |ls| ==> |r| == |ls| - 1
    ensures k < |ls| ==> forall i :: 0 <= i < k ==> r[i] == ls[i]
    ensures k < |ls| ==> forall i :: k <= i < |r| ==> r[i] == ls[i + 1]
    ensures k >= |ls| ==> r == ls
  {
    if k < |ls| then ls[..k] + ls[k + 1..] else ls
  }

  /** Copying lines one at a time while skipping index `k`: one more line
      read adds it to the copy unless it is the skipped one. */
  lemma RemoveAtSnoc(ls: seq<string>, l: string, k: nat)
    ensures RemoveAt(ls + [l], k) == if k == |ls| then ls else RemoveAt(ls, k) + [l]
  {
    if k < |ls| {
      assert (ls + [l])[..k] == ls[..k];
      assert (ls + [l])[k + 1..] == ls[k + 1..] + [l];
    } else if k == |ls| {
      assert (ls + [l])[..k] == ls;
    }
  }

  /** Dropping a line keeps a list of lines well-formed. */
  lemma RemoveWellFormed(ls: seq<string>, k: nat)
    requires WellFormed(ls)
    ensures WellFormed(RemoveAt(ls, k))
  {
    var r := RemoveAt(ls, k);
    if k < |ls| {
      forall i | 0 <= i < |r| ensures IsLine(r[i]) {
        if i >= k { assert r[i] == ls[i + 1]; }
      }
      forall i | 0 <= i < |r| - 1 ensures Terminated(r[i]) {
        if i >= k { assert r[i] == ls[i + 1]; }
      }
    }
  }

  /** Rewriting the file without line `k` and reading it back gives exactly
      the old lines without line `k`, the others in their order. */
  lemma RemoveRoundTrip(text: string, k: nat)
    ensures Lines(Join(RemoveAt(Lines(text), k))) == RemoveAt(Lines(text), k)
  {
    LinesWellFormed(text);
    RemoveWellFormed(Lines(text), k);
    LinesJoin(RemoveAt(Lines(text), k));
  }

  /** An entry whose title and URL hold no newline is one terminated line. */
  lemma EntryIsLine(title: string, url: string)
    requires '\n' !in title && '\n' !in url
    ensures IsLine(Entry(title, url)) && Terminated(Entry(title, url))
  {
    var e := Entry(title, url);
    assert e[..|e| - 1] == title + "#" + url;
  }

  /** Saving onto a file that is empty or ends with a newline adds exactly
      the new entry as the file's last line. Neither field may hold a
      carriage return, which Python's text-mode reading also takes as a line
      end. */
  lemma SaveAppendsLine(text: string, title: string, url: string)
    requires text == "" || text[|text| - 1] == '\n'
    requires '\n' !in title && '\n' !in url && '\r' !in title && '\r' !in url
    ensures Lines(text + Entry(title, url)) == Lines(text) + [Entry(title, url)]
  {
    EntryIsLine(title, url);
    LinesAppendLine(text, Entry(title, url));
  }

  /** Round trip: saving a page into an empty file, with a title free of '#'
      and neither field holding a newline or a carriage return, loads it into slot 0 and shows it
      there with the title as label and the URL as tip; slots 1..9 stay empty. */
  lemma SaveIntoEmpty(title: string, url: string)
    requires '#' !in title && '\n' !in title && '\n' !in url
    requires '\r' !in title && '\r' !in url
    ensures var slots := Loaded(Lines("" + Entry(title, url)));
            && slots[0] == Entry(title, url)
            && (forall i :: 1 <= i < Capacity ==> slots[i] == EmptySlot)
            && Rendered(slots)[0] == View(title, url, Some(url))
            && (forall i :: 1 <= i < Capacity ==> Rendered(slots)[i] == EmptyView)
  {
    var e := Entry(title, url);
    SaveAppendsLine("", title, url);
    assert Lines("") == [];
    var lines := Lines("" + e);
    assert lines == [e];
    var k := |title|;
    assert e[k] == '#' && e[..k] == title;
    assert Decodable(lines, 0);
    LoadedSlot(lines, 0);
    DisplayEntry(lines, 0, k);
    assert e[k + 1..|e| - 1] == url;
    forall i | 1 <= i < Capacity
      ensures Loaded(lines)[i] == EmptySlot && Rendered(Loaded(lines))[i] == EmptyView
    {
      LoadedSlot(lines, i);
      DisplayTruncated(lines, i);
    }
  }
}
