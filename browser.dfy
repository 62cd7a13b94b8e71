/** The bookmark state of the browser window as the program keeps it: ten
    slot strings overwritten in place, ten bookmark buttons whose text, status
    tip and connected callbacks are updated in place, and the bookmark file. */
module BrowserWindow {
  import opened Wrappers
  import opened Text
  import opened Bookmarks

  /** One bookmark button. `handlers` lists, in the order they were connected,
      the URL each connected open-bookmark callback opens: every refresh of an
      occupied slot connects one more, and nothing is ever disconnected. */
  class Button {
    var caption: string
    var tip: string
    var handlers: seq<string>

    /** A new button reads "Empty" as text and status tip, with nothing connected. */
    constructor ()
      ensures caption == EmptySlot && tip == EmptySlot && handlers == []
    {
      caption := EmptySlot;
      tip := EmptySlot;
      handlers := [];
    }

    /** `setText`: the button's text becomes `t`. */
    method SetText(t: string)
      modifies this
      ensures caption == t && tip == old(tip) && handlers == old(handlers)
    {
      caption := t;
    }

    /** `setStatusTip`: the button's status tip becomes `t`. */
    method SetStatusTip(t: string)
      modifies this
      ensures tip == t && caption == old(caption) && handlers == old(handlers)
    {
      tip := t;
    }

    /** `triggered.connect`: one more callback, opening `url`, is connected
        after those already there. */
    method Connect(url: string)
      modifies this
      ensures handlers == old(handlers) + [url] && caption == old(caption) && tip == old(tip)
    {
      handlers := handlers + [url];
    }
  }

  /** Reading the bookmark file either works or raises because it is missing. */
  datatype Status = Ok | FileNotFound

  /** What a removal did: removed the line of the slot that matched, found no
      matching slot, or raised because the file is missing. */
  datatype RemoveOutcome = Removed(slot: nat) | NoMatch | RemoveFailed

  /** The file's text after appending `text` in append mode, which creates a
      missing file. */
  function AppendTo(file: Option<string>, text: string): string {
    (if file.Some? then file.value else "") + text
  }

  /** The connected callbacks of the buttons `bs`, in order. */
  ghost function HandlersOf(bs: seq<Button>): (hs: seq<seq<string>>)
    reads bs
    ensures |hs| == |bs|
    ensures forall i :: 0 <= i < |bs| ==> hs[i] == bs[i].handlers
  {
    if bs == [] then [] else [bs[0].handlers] + HandlersOf(bs[1..])
  }

  /** Rewriting the file during a removal: the lines are written back one by
      one, with a 1-based line counter, skipping line `skip + 1`. The text
      written is the lines without the one at 0-based index `skip`. */
  method Rewrite(lines: seq<string>, skip: nat) returns (written: string)
    ensures written == Join(RemoveAt(lines, skip))
  {
    written := "";
    ghost var kept: seq<string> := [];
    var ptr := 1;
    for n := 0 to |lines|
      invariant ptr == n + 1
      invariant kept == RemoveAt(lines[..n], skip)
      invariant written == Join(kept)
    {
      assert lines[..n + 1] == lines[..n] + [lines[n]];
      RemoveAtSnoc(lines[..n], lines[n], skip);
      if ptr != skip + 1 {
        JoinSnoc(kept, lines[n]);
        written := written + lines[n];
        kept := kept + [lines[n]];
      }
      ptr := ptr + 1;
    }
    assert lines[..|lines|] == lines;
  }

  class Browser {
    /** The ten slots: a raw file line (newline included), or `EmptySlot`. */
    var bookmarks: array<string>
    /** The ten bookmark buttons, one per slot. */
    var buttons: seq<Button>
    /** The text of the bookmark file, or None when there is no such file. */
    var file: Option<string>

    ghost predicate Valid()
      reads this`bookmarks, this`buttons
    {
      && bookmarks.Length == Capacity
      && |buttons| == Capacity
      && (forall i, j :: 0 <= i < j < Capacity ==> buttons[i] != buttons[j])
    }

    /** The connected callbacks of every button, in slot order. */
    ghost function HandlerLists(): (hs: seq<seq<string>>)
      reads this`bookmarks, this`buttons, buttons
      requires Valid()
      ensures |hs| == Capacity
      ensures forall i :: 0 <= i < Capacity ==> hs[i] == buttons[i].handlers
    {
      HandlersOf(buttons)
    }

    /** Every button shows its view and has that view's link connected after
        the callbacks `before` it already had. */
    ghost predicate Shows(views: seq<View>, before: seq<seq<string>>)
      reads this`bookmarks, this`buttons, buttons
      requires Valid()
    {
      && |views| == Capacity && |before| == Capacity
      && forall i :: 0 <= i < Capacity ==>
           && buttons[i].caption == views[i].caption
           && buttons[i].tip == views[i].tip
           && buttons[i].handlers == before[i] + Links(views[i])
    }

    /** The window starts with ten `EmptySlot` slots, an existing or missing
        bookmark file, and ten fresh buttons reading "Empty". */
    constructor (disk: Option<string>)
      ensures Valid() && file == disk && fresh(bookmarks)
      ensures bookmarks[..] == seq(Capacity, _ => EmptySlot)
      ensures forall i :: 0 <= i < Capacity ==>
                && fresh(buttons[i])
                && buttons[i].caption == EmptySlot && buttons[i].tip == EmptySlot
                && buttons[i].handlers == []
    {
      file := disk;
      var created: seq<Button> := [];
      var count := 0;
      while count < Capacity
        invariant count == |created| <= Capacity
        invariant forall i :: 0 <= i < count ==>
                    && fresh(created[i])
                    && created[i].caption == EmptySlot && created[i].tip == EmptySlot
                    && created[i].handlers == []
        invariant forall i, j :: 0 <= i < j < count ==> created[i] != created[j]
      {
        var bm := new Button();
        created := created + [bm];
        count := count + 1;
      }
      buttons := created;
      bookmarks := new string[Capacity](_ => EmptySlot);
    }

    /** Fills the slots from the file. A missing file raises before any slot
        changes; otherwise the slots become `Loaded` of the file's lines. */
    method Load() returns (status: Status)
      requires Valid()
      modifies bookmarks
      ensures file.None? ==> status == FileNotFound && bookmarks[..] == old(bookmarks[..])
      ensures file.Some? ==> status == Ok && bookmarks[..] == Loaded(Lines(file.value))
    {
      if file.None? {
        return FileNotFound;
      }
      Fill(Lines(file.value));
      return Ok;
    }

    /** The load loop over the lines `readline` returns one by one: the slots
        become `Loaded(lines)`. */
    method Fill(lines: seq<string>)
      requires Valid()
      modifies bookmarks
      ensures bookmarks[..] == Loaded(lines)
    {
      var count := 0;
      var clear := false;
      while count < Capacity
        invariant 0 <= count <= Capacity
        invariant forall i :: 0 <= i < count ==>
                    bookmarks[i] == if Decodable(lines, i) then lines[i] else EmptySlot
        invariant clear == ClearAfter(lines, count)
      {
        var line := ReadLine(lines, count);
        ClearTest(line);
        ClearAfterStep(lines, count);
        if line == "" || Find(line, "#") == -1 {
          clear := true;
        }
        if clear {
          bookmarks[count] := EmptySlot;
        } else {
          bookmarks[count] := line;
        }
        count := count + 1;
      }
      forall i | 0 <= i < Capacity ensures bookmarks[i] == Loaded(lines)[i] {
        LoadedSlot(lines, i);
      }
    }

    /** Shows the slots on the buttons: every button gets the text and status
        tip of `Rendered(slots)`, and every occupied slot before the first
        `EmptySlot` connects one more callback to its button. */
    method Display()
      requires Valid()
      modifies buttons
      ensures Shows(Rendered(bookmarks[..]), old(HandlerLists()))
    {
      ghost var slots := bookmarks[..];
      ghost var before := HandlerLists();
      ghost var views := Rendered(slots);
      forall i | 0 <= i < Capacity ensures views[i] == ViewAt(slots, 0, false, i) {
        RenderedSlot(slots, i);
      }
      var count := 0;
      var clear := false;
      while count < Capacity
        invariant 0 <= count <= Capacity
        invariant clear == PlaceholderBefore(slots, count)
        invariant forall i :: 0 <= i < count ==>
                    && buttons[i].caption == views[i].caption
                    && buttons[i].tip == views[i].tip
                    && buttons[i].handlers == before[i] + Links(views[i])
        invariant forall i :: count <= i < Capacity ==> buttons[i].handlers == before[i]
      {
        var x := bookmarks[count];
        var btn := buttons[count];
        var title, url;
        PlaceholderStep(slots, count);
        if x == EmptySlot {
          clear := true;
        }
        assert views[count] == if clear then EmptyView else Shown(x);
        if clear {
          title, url := EmptySlot, EmptySlot;
        } else {
          title := Label(x);
          url := Tip(x);
          btn.Connect(url);
        }
        btn.SetText(title);
        btn.SetStatusTip(url);
        count := count + 1;
      }
    }

    /** Window construction: load the slots, then show them. A missing file
        raises while loading, and nothing is shown. */
    method Start() returns (status: Status)
      requires Valid()
      modifies bookmarks, buttons
      ensures file.None? ==> && status == FileNotFound
                             && bookmarks[..] == old(bookmarks[..])
                             && forall i :: 0 <= i < Capacity ==> unchanged(buttons[i])
      ensures file.Some? ==> && status == Ok
                             && bookmarks[..] == Loaded(Lines(file.value))
                             && Shows(Rendered(bookmarks[..]), old(HandlerLists()))
    {
      status := Load();
      if status == Ok {
        Display();
      }
    }

    /** Saves the current page as a bookmark. When the last slot is occupied
        nothing happens; otherwise the entry line is appended to the file
        (creating it if missing), the slots are reloaded and redisplayed. */
    method Save(title: string, urlText: string) returns (saved: bool)
      requires Valid()
      modifies this`file, bookmarks, buttons
      ensures Valid()
      ensures saved <==> old(bookmarks[Capacity - 1]) == EmptySlot
      ensures !saved ==> && file == old(file)
                         && bookmarks[..] == old(bookmarks[..])
                         && forall i :: 0 <= i < Capacity ==> unchanged(buttons[i])
      ensures saved ==> && file == Some(AppendTo(old(file), Entry(title, urlText)))
                        && bookmarks[..] == Loaded(Lines(file.value))
                        && Shows(Rendered(bookmarks[..]), old(HandlerLists()))
    {
      if bookmarks[Capacity - 1] != EmptySlot {
        return false;
      }
      ghost var before := HandlerLists();
      file := Some(AppendTo(file, Entry(title, urlText)));
      assert HandlerLists() == before;
      var status := Start();
      return true;
    }

    /** The removal scan: the first slot, in memory, whose stored string
        contains `urlText`. It changes nothing. */
    method Scan(urlText: string) returns (m: Option<nat>)
      requires Valid()
      ensures m == FirstMatch(bookmarks[..], urlText)
    {
      ghost var slots := bookmarks[..];
      var count := 0;
      while count < Capacity
        invariant 0 <= count <= Capacity
        invariant MatchFrom(slots, urlText, count) == FirstMatch(slots, urlText)
      {
        var x := Find(bookmarks[count], urlText);
        assert bookmarks[count] == slots[count];
        if x > -1 {
          return Some(count);
        }
        count := count + 1;
      }
      return None;
    }

    /** Removes a bookmark by the URL bar's text. The scan runs over the slots
        in memory, without reloading, and picks the first slot whose stored
        string contains the text. Then the file is rewritten without the line
        at that slot's index, and the slots are reloaded and redisplayed. No
        match changes nothing; a missing file raises before anything changes. */
    method Remove(urlText: string) returns (outcome: RemoveOutcome)
      requires Valid()
      modifies this`file, bookmarks, buttons
      ensures Valid()
      ensures FirstMatch(old(bookmarks[..]), urlText).None? ==> outcome == NoMatch
      ensures FirstMatch(old(bookmarks[..]), urlText).Some? ==>
                outcome == if old(file).None? then RemoveFailed
                           else Removed(FirstMatch(old(bookmarks[..]), urlText).value)
      ensures !outcome.Removed? ==> && file == old(file)
                                    && bookmarks[..] == old(bookmarks[..])
                                    && forall i :: 0 <= i < Capacity ==> unchanged(buttons[i])
      ensures outcome.Removed? ==> && old(file).Some?
                                   && file == Some(Join(RemoveAt(Lines(old(file).value), outcome.slot)))
                                   && bookmarks[..] == Loaded(Lines(file.value))
                                   && Shows(Rendered(bookmarks[..]), old(HandlerLists()))
    {
      var m := Scan(urlText);
      if m.None? {
        return NoMatch;
      }
      if file.None? {
        return RemoveFailed;
      }
      var written := Rewrite(Lines(file.value), m.value);
      ghost var before := HandlerLists();
      file := Some(written);
      assert HandlerLists() == before;
      var status := Start();
      return Removed(m.value);
    }
  }
}
