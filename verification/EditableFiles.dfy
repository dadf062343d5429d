/** The linked list of lines that cgiedit.c edits. */
module EditableFiles {
  import opened Text
  import opened Actions
  import opened ActionParser
  import opened ActionTokens
  import opened ActionsFileText
  import opened ActionsFileEdits

  /** `struct file_line`, with `data.action` out of its union. */
  class FileLine {
    var next: FileLine?
    var unprocessed: string
    var kind: LineType
    var action: Spec

    constructor (text: string, kind: LineType, next: FileLine?)
      ensures unprocessed == text && this.kind == kind && this.next == next
    {
      unprocessed, this.kind, this.next := text, kind, next;
      action := Neutral();
    }

    function AsLine(): Line
      reads this
    {
      Line(unprocessed, kind)
    }
  }

  /** The nodes of a list from its first node on, each linked to the one after it. */
  ghost predicate Linked(first: FileLine?, nodes: seq<FileLine>)
    reads nodes
  {
    && first == NodeAt(nodes, 0)
    && forall i {:trigger nodes[i].next} | 0 <= i < |nodes| :: nodes[i].next == NodeAt(nodes, i + 1)
  }

  ghost function NodeAt(nodes: seq<FileLine>, i: nat): FileLine? {
    if i < |nodes| then nodes[i] else null
  }

  ghost predicate Distinct(nodes: seq<FileLine>) {
    forall i, j | 0 <= i < j < |nodes| :: nodes[i] != nodes[j]
  }

  ghost function LinesOf(nodes: seq<FileLine>): (lines: seq<Line>)
    reads nodes
    ensures |lines| == |nodes| && forall i | 0 <= i < |nodes| :: lines[i] == nodes[i].AsLine()
  {
    seq(|nodes|, i requires 0 <= i < |nodes| reads nodes => nodes[i].AsLine())
  }

  /** The pointers to two sections and their neighbours. */
  datatype Parts = Parts(before1: FileLine?, start1: FileLine, end1: FileLine, after1: FileLine?,
                         before2: FileLine, start2: FileLine, end2: FileLine, after2: FileLine?)

  ghost predicate Ordered(nodes: seq<FileLine>, p: Sections) {
    p.start1 < p.end1 <= p.start2 < p.end2 <= |nodes|
  }

  ghost predicate PartsAt(nodes: seq<FileLine>, q: Parts, p: Sections) {
    && Ordered(nodes, p)
    && q.before1 == (if p.start1 == 0 then null else nodes[p.start1 - 1]) && q.before2 == nodes[p.start2 - 1]
    && q.start1 == nodes[p.start1] && q.end1 == nodes[p.end1 - 1] && q.after1 == nodes[p.end1]
    && q.start2 == nodes[p.start2] && q.end2 == nodes[p.end2 - 1] && q.after2 == NodeAt(nodes, p.end2)
  }

  /** The lines of a `struct editable_file`. */
  class EditableFile {
    var lines: FileLine?
    ghost var nodes: seq<FileLine>

    ghost predicate Valid()
      reads this, nodes
    {
      Linked(lines, nodes) && Distinct(nodes)
    }

    /** The loops that look for a line by its number; k is the number of lines passed. */
    method FindLine(number: nat) returns (cur: FileLine?, prev: FileLine?, k: nat)
      requires Valid()
      ensures k == if Place(number) < |nodes| then Place(number) else |nodes|
      ensures cur == NodeAt(nodes, k) && prev == (if k == 0 then null else nodes[k - 1])
    {
      hide Linked, Distinct;
      NodesOfLinked(lines, nodes);
      cur, prev, k := lines, null, 0;
      while cur != null && k + 1 < number
        invariant k <= |nodes| && (k == 0 || k < number)
        invariant cur == NodeAt(nodes, k) && prev == (if k == 0 then null else nodes[k - 1])
        decreases |nodes| - k
      {
        prev := cur;
        cur := cur.next;
        k := k + 1;
      }
    }

    /** The loop to the last line before the next section header. */
    method LastOfSection(start: FileLine, k: nat) returns (last: FileLine, end: nat)
      requires Valid() && k < |nodes| && start == nodes[k]
      ensures end == NextHeader(KindsOf(LinesOf(nodes)), k + 1) && k < end && last == nodes[end - 1]
    {
      hide Linked, Distinct, NextHeader, LinesOf, KindsOf;
      NodesOfLinked(lines, nodes);
      ghost var kinds := KindsOf(LinesOf(nodes));
      last, end := start, k + 1;
      while last.next != null && last.next.kind != ActionHeader
        invariant k < end <= |nodes| && last == nodes[end - 1]
        invariant forall j | k < j < end :: kinds[j] != ActionHeader
        decreases |nodes| - end
      {
        last := last.next;
        end := end + 1;
      }
      NextHeaderIs(kinds, k + 1, end);
    }

    /** The loop over the patterns of a section. */
    method EndOfPatterns(start: FileLine, k: nat) returns (last: FileLine, after: FileLine?, end: nat)
      requires Valid() && k < |nodes| && start == nodes[k]
      ensures end == PatternsEnd(KindsOf(LinesOf(nodes)), k + 1) && k < end
      ensures last == nodes[end - 1] && after == NodeAt(nodes, end)
    {
      hide Linked, Distinct, PatternsEnd, LinesOf, KindsOf;
      NodesOfLinked(lines, nodes);
      ghost var kinds := KindsOf(LinesOf(nodes));
      last, after, end := start, start.next, k + 1;
      while after != null && after.kind == Url
        invariant k < end <= |nodes| && last == nodes[end - 1] && after == NodeAt(nodes, end)
        invariant forall j | k < j < end :: kinds[j] == Url
        decreases |nodes| - end
      {
        last := after;
        after := after.next;
        end := end + 1;
      }
      PatternsEndIs(kinds, k + 1, end);
    }

    /** Links a new line in, after a line or at the top. */
    method InsertAfter(cur: FileLine?, text: string, kind: LineType, ghost k: nat)
      requires Valid() && k <= |nodes| && cur == (if k == 0 then null else nodes[k - 1])
      modifies this, nodes
      ensures Valid() && LinesOf(nodes) == Inserted(old(LinesOf(nodes)), k, Line(text, kind))
      ensures k < |nodes| && fresh(nodes[k]) && nodes == Inserted(old(nodes), k, nodes[k])
    {
      hide Inserted, LinesOf, Linked, Distinct;
      NodesOfLinked(lines, nodes);
      ghost var shown := LinesOf(nodes);
      var newLine := new FileLine(text, kind, if cur == null then lines else cur.next);
      ghost var before, after := nodes, Inserted(nodes, k, newLine);
      InsertedAt(nodes, k, newLine);
      if cur == null {
        lines := newLine;
      } else {
        cur.next := newLine;
      }
      nodes := after;
      forall i | 0 <= i < |after|
        ensures after[i].next == NodeAt(after, i + 1)
      {}
      InsertKeepsDistinct(before, k, newLine);
      SameLines(before);
      LinesAfterInsert(before, k, newLine);
      LinkedNodes(lines, after);
    }

    /** Unlinks a line. */
    method Unlink(cur: FileLine, prev: FileLine?, ghost k: nat)
      requires Valid() && k < |nodes| && cur == nodes[k] && prev == (if k == 0 then null else nodes[k - 1])
      modifies this, nodes
      ensures Valid() && LinesOf(nodes) == Dropped(old(LinesOf(nodes)), k)
      ensures nodes == Dropped(old(nodes), k)
    {
      hide LinesOf, Linked, Distinct;
      NodesOfLinked(lines, nodes);
      ghost var before, after := nodes, Dropped(nodes, k);
      if prev == null {
        lines := cur.next;
      } else {
        prev.next := cur.next;
      }
      cur.next := null;
      nodes := after;
      forall i | 0 <= i < |after|
        ensures after[i].next == NodeAt(after, i + 1)
      {}
      DistinctNodes(after);
      LinkedNodes(lines, after);
      SameLines(before);
      LinesAfterDrop(before, k);
    }

    /** `cgi_edit_actions_add_url` */
    method AddUrl(section: nat, pattern: string) returns (ok: bool)
      requires Valid()
      modifies this, nodes
      ensures Valid() && ok == Edited(old(LinesOf(nodes)), Edit.AddUrl(section, pattern)).Some?
      ensures LinesOf(nodes)
           == if ok then Edited(old(LinesOf(nodes)), Edit.AddUrl(section, pattern)).value else old(LinesOf(nodes))
      ensures forall i | 0 <= i < |nodes| :: nodes[i] in old(nodes) || fresh(nodes[i])
    {
      hide Linked, Distinct, LinesOf, KindsOf, Inserted;
      if section < 1 {
        return false;
      }
      var cur, prev, k := FindLine(section);
      FirstIsHeader(cur, k, section, section);
      if cur == null || cur.kind != ActionHeader {
        return false;
      }
      InsertAfter(cur, pattern, Url, k + 1);
      InsertedAt(old(nodes), k + 1, nodes[k + 1]);
      ok := true;
    }

    /** `cgi_edit_actions_remove_url` */
    method RemoveUrl(line: nat) returns (ok: bool)
      requires Valid()
      modifies this, nodes
      ensures Valid() && ok == Edited(old(LinesOf(nodes)), Edit.RemoveUrl(line)).Some?
      ensures LinesOf(nodes)
           == if ok then Edited(old(LinesOf(nodes)), Edit.RemoveUrl(line)).value else old(LinesOf(nodes))
      ensures forall i | 0 <= i < |nodes| :: nodes[i] in old(nodes)
    {
      hide Linked, Distinct, LinesOf, KindsOf;
      var cur, prev, k := FindLine(line);
      if cur == null || prev == null || cur.kind != Url {
        return false;
      }
      Unlink(cur, prev, k);
      ok := true;
    }

    /** `cgi_edit_actions_section_remove` */
    method RemoveSection(section: nat) returns (ok: bool)
      requires Valid()
      modifies this, nodes
      ensures Valid() && ok == Edited(old(LinesOf(nodes)), Edit.RemoveSection(section)).Some?
      ensures LinesOf(nodes)
           == if ok then Edited(old(LinesOf(nodes)), Edit.RemoveSection(section)).value else old(LinesOf(nodes))
      ensures forall i | 0 <= i < |nodes| :: nodes[i] in old(nodes)
    {
      hide Linked, Distinct, LinesOf, KindsOf;
      NodesOfLinked(lines, nodes);
      var cur, prev, k := FindLine(section);
      if cur == null || cur.kind != ActionHeader {
        return false;
      }
      if cur.next != null && cur.next.kind == Url {
        return false;
      }
      Unlink(cur, prev, k);
      ok := true;
    }

    /** The line after which a section is added, or null for the top. */
    method PlaceForSection(section: nat) returns (found: bool, cur: FileLine?, k: nat)
      requires Valid()
      ensures AddSectionPlace(KindsOf(LinesOf(nodes)), section) == if found then Some(k) else None
      ensures found ==> k <= |nodes| && cur == (if k == 0 then null else nodes[k - 1])
    {
      hide Linked, Distinct, LinesOf, KindsOf, NextHeader;
      NodesOfLinked(lines, nodes);
      found, k := true, 0;
      if section <= 1 {
        cur := lines;
        if cur != null && cur.kind != ActionHeader {
          cur, k := LastOfSection(cur, 0);
        } else {
          cur := null;
        }
      } else {
        var prev;
        cur, prev, k := FindLine(section);
        if cur == null || cur.kind != ActionHeader {
          return false, cur, k;
        }
        cur, k := LastOfSection(cur, k);
      }
    }

    /** `cgi_edit_actions_section_add` */
    method AddSection(section: nat) returns (ok: bool)
      requires Valid()
      modifies this, nodes
      ensures Valid() && ok == Edited(old(LinesOf(nodes)), Edit.AddSection(section)).Some?
      ensures LinesOf(nodes)
           == if ok then Edited(old(LinesOf(nodes)), Edit.AddSection(section)).value else old(LinesOf(nodes))
      ensures forall i | 0 <= i < |nodes| :: nodes[i] in old(nodes) || fresh(nodes[i])
    {
      hide Linked, Distinct, LinesOf, KindsOf, Inserted, AddSectionPlace;
      var found, cur, k := PlaceForSection(section);
      if !found {
        return false;
      }
      InsertAfter(cur, ['{', '}'], ActionHeader, k);
      InsertedAt(old(nodes), k, nodes[k]);
      ok := true;
    }

    /** The pointers that change when two sections change places. */
    method Rewire(q: Parts, ghost p: Sections)
      requires Valid() && PartsAt(nodes, q, p)
      modifies this`lines, nodes
      ensures nodes == old(nodes) && LinesOf(nodes) == old(LinesOf(nodes))
      ensures lines == if p.start1 == 0 then q.start2 else old(lines)
      ensures forall i {:trigger nodes[i].next} | 0 <= i < |nodes| :: nodes[i].next == NextAfterSwap(nodes, p, i)
    {
      hide LinesOf, Linked, Distinct;
      NodesOfLinked(lines, nodes);
      if q.before1 == null {
        lines := q.start2;
      } else {
        q.before1.next := q.start2;
      }
      RewireEnds(q, p);
      SameLines(nodes);
    }

    /** The pointers at the ends of the sections and before the second one. */
    method RewireEnds(q: Parts, ghost p: Sections)
      requires PartsAt(nodes, q, p)
      requires forall i, j | 0 <= i < j < |nodes| :: nodes[i] != nodes[j]
      modifies nodes
      ensures forall i {:trigger nodes[i].next} | 0 <= i < |nodes| ::
                nodes[i].next == if i + 1 in {p.end1, p.end2, p.start2} then NextAfterSwap(nodes, p, i)
                                 else old(nodes[i].next)
      ensures forall i | 0 <= i < |nodes| ::
                nodes[i].unprocessed == old(nodes[i].unprocessed) && nodes[i].kind == old(nodes[i].kind)
    {
      if q.before2 == q.end1 {
        q.end2.next := q.start1;
      } else {
        q.end2.next := q.after1;
        q.before2.next := q.start1;
      }
      q.end1.next := q.after2;
    }

    twostate lemma SameLines(nodes: seq<FileLine>)
      requires forall i | 0 <= i < |nodes| ::
                 nodes[i].unprocessed == old(nodes[i].unprocessed) && nodes[i].kind == old(nodes[i].kind)
      ensures LinesOf(nodes) == old(LinesOf(nodes))
    {}

    method Relink(q: Parts, ghost p: Sections)
      requires Valid() && PartsAt(nodes, q, p)
      modifies this, nodes
      ensures Valid() && nodes == Swapped(old(nodes), p.start1, p.end1, p.start2, p.end2)
      ensures LinesOf(nodes) == Swapped(old(LinesOf(nodes)), p.start1, p.end1, p.start2, p.end2)
      ensures multiset(nodes) == multiset(old(nodes))
    {
      hide LinesOf, Linked, Distinct, Swapped, NextAfterSwap, NodeAt;
      ghost var was := nodes;
      FirstNode(lines, nodes);
      SwappedNext(was, p);
      Rewire(q, p);
      nodes := Swapped(was, p.start1, p.end1, p.start2, p.end2);
      SwapKeepsDistinct(was, p.start1, p.end1, p.start2, p.end2);
      LinkedNodes(lines, nodes);
      LinesAfterSwap(was, p);
    }

    /** `cgi_edit_actions_section_swap` */
    method SwapSections(section1: nat, section2: nat) returns (ok: bool)
      requires Valid()
      modifies this, nodes
      ensures Valid() && ok == Edited(old(LinesOf(nodes)), Edit.SwapSections(section1, section2)).Some?
      ensures LinesOf(nodes)
           == if ok then Edited(old(LinesOf(nodes)), Edit.SwapSections(section1, section2)).value
               else old(LinesOf(nodes))
      ensures multiset(nodes) == multiset(old(nodes))
    {
      hide Linked, Distinct, LinesOf, KindsOf, Swapped, SwapPlaces;
      if section1 > section2 {
        ok := SwapInOrder(section2, section1);
      } else {
        ok := SwapInOrder(section1, section2);
      }
    }

    method SwapInOrder(first: nat, second: nat) returns (ok: bool)
      requires Valid() && first <= second
      modifies this, nodes
      ensures Valid() && ok == ActionsFileEdits.SwapInOrder(old(LinesOf(nodes)), first, second).Some?
      ensures LinesOf(nodes)
           == if ok then ActionsFileEdits.SwapInOrder(old(LinesOf(nodes)), first, second).value else old(LinesOf(nodes))
      ensures multiset(nodes) == multiset(old(nodes))
    {
      hide Linked, Distinct, LinesOf, KindsOf, Swapped, SwapPlaces, PartsAt;
      var start1, before1, a := FindLine(first);
      FirstIsHeader(start1, a, first, second);
      if start1 == null || start1.kind != ActionHeader {
        return false;
      }
      if first == second {
        return true;
      }
      var q, p := FindParts(start1, before1, a, first, second);
      if q.None? {
        return false;
      }
      Relink(q.value, p);
      ok := true;
    }

    /** From the header of the first section on, the places that the swap needs. */
    method FindParts(start1: FileLine, before1: FileLine?, a: nat, ghost first: nat, second: nat)
      returns (q: Option<Parts>, ghost p: Sections)
      requires Valid() && a < |nodes| && a == Place(first) && start1 == nodes[a] && start1.kind == ActionHeader
      requires before1 == (if a == 0 then null else nodes[a - 1])
      ensures SwapPlaces(KindsOf(LinesOf(nodes)), first, second) == if q.None? then None else Some(p)
      ensures q.Some? ==> PartsAt(nodes, q.value, p)
    {
      hide Linked, Distinct, LinesOf, KindsOf, SwapPlaces, PatternsEnd, Place;
      var end1, after1, b := EndOfPatterns(start1, a);
      var start2, before2, c := FindLineFrom(end1, after1, b, second);
      q, p := None, Sections(a, b, c, b);
      if start2 == null || start2.kind != ActionHeader {
        PlacesFound(start1, a, b, start2, c, b, first, second);
      } else {
        var end2, after2, d := EndOfPatterns(start2, c);
        PlacesFound(start1, a, b, start2, c, d, first, second);
        q, p := Some(Parts(before1, start1, end1, after1, before2, start2, end2, after2)), Sections(a, b, c, d);
      }
    }

    lemma FirstIsHeader(start1: FileLine?, a: nat, first: nat, second: nat)
      requires Valid() && a == (if Place(first) < |nodes| then Place(first) else |nodes|) && start1 == NodeAt(nodes, a)
      ensures HeaderAt(KindsOf(LinesOf(nodes)), Place(first)) <==> start1 != null && start1.kind == ActionHeader
      ensures !HeaderAt(KindsOf(LinesOf(nodes)), Place(first)) ==>
                SwapPlaces(KindsOf(LinesOf(nodes)), first, second).None?
    {
      hide Linked, Distinct;
    }

    lemma PlacesFound(start1: FileLine?, a: nat, b: nat, start2: FileLine?, c: nat, d: nat, first: nat, second: nat)
      requires Valid() && a == Place(first) < |nodes| && start1 == nodes[a] && start1.kind == ActionHeader
      requires b == PatternsEnd(KindsOf(LinesOf(nodes)), a + 1)
      requires c == if Place(second) < b then b else if Place(second) < |nodes| then Place(second) else |nodes|
      requires start2 == NodeAt(nodes, c)
      requires start2 != null && start2.kind == ActionHeader ==>
                c < |nodes| && d == PatternsEnd(KindsOf(LinesOf(nodes)), c + 1)
      ensures SwapPlaces(KindsOf(LinesOf(nodes)), first, second)
           == if start2 == null || start2.kind != ActionHeader then None else Some(Sections(a, b, c, d))
    {
      hide Linked, Distinct, PatternsEnd;
    }

    /** The loop that goes on from the end of a section to a line. */
    method FindLineFrom(before: FileLine, from: FileLine?, b: nat, number: nat)
      returns (cur: FileLine?, prev: FileLine, k: nat)
      requires Valid() && 0 < b <= |nodes| && before == nodes[b - 1] && from == NodeAt(nodes, b)
      ensures b <= k <= |nodes| && cur == NodeAt(nodes, k) && prev == nodes[k - 1]
      ensures k == if Place(number) < b then b else if Place(number) < |nodes| then Place(number) else |nodes|
    {
      hide Linked, Distinct;
      NodesOfLinked(lines, nodes);
      cur, prev, k := from, before, b;
      while cur != null && k + 1 < number
        invariant b <= k <= |nodes| && (k == b || k < number)
        invariant cur == NodeAt(nodes, k) && prev == nodes[k - 1]
        decreases |nodes| - k
      {
        prev := cur;
        cur := cur.next;
        k := k + 1;
      }
    }

    // ----- Parsing in place ----------------------------------------------------

    ghost function Texts(): (texts: seq<string>)
      reads this, nodes
      ensures |texts| == |nodes| && forall i | 0 <= i < |nodes| :: texts[i] == nodes[i].unprocessed
    {
      seq(|nodes|, i requires 0 <= i < |nodes| reads this, nodes => nodes[i].unprocessed)
    }

    /** The lines up to cur have been processed, and carry their types and actions. */
    ghost predicate ParsedTo(cur: FileLine?, s: Progress, done: seq<Typed>)
      reads this, nodes
    {
      && Valid() && cur == NodeAt(nodes, |done|) && Reached(Texts(), done, s)
      && forall i | 0 <= i < |done| :: Shows(nodes[i], done[i])
    }

    /** One more line gets its type, and a section header its actions. */
    method Mark(cur: FileLine, ghost s: Progress, ghost done: seq<Typed>, kind: LineType, action: Spec,
                ghost next: Progress)
      returns (after: FileLine?)
      requires ParsedTo(cur, s, done) && EditLine(s, cur.unprocessed) == Some(Typed(next, kind, action))
      modifies nodes`kind, nodes`action
      ensures Valid() && |done| < |nodes| && Texts() == old(Texts())
      ensures ParsedTo(after, next, done + [Typed(next, kind, action)])
    {
      hide EditLine, Reached, Distinct;
      NodesOfLinked(lines, nodes);
      cur.kind := kind;
      if kind == ActionHeader {
        cur.action := action;
      }
      assert Texts() == old(Texts());
      OneMoreReached(Texts(), done, s, Typed(next, kind, action));
      after := cur.next;
    }

    /** The blank lines before the first header. */
    method ParseLeadingBlanks() returns (cur: FileLine?, ghost done: seq<Typed>)
      requires Valid()
      modifies nodes`kind, nodes`action
      ensures Texts() == old(Texts()) && Valid() && ParsedTo(cur, START, done) && |done| <= |nodes|
      ensures cur != null ==> cur.unprocessed != []
    {
      hide ParsedTo, EditLine;
      cur, done := lines, [];
      NothingParsed();
      while cur != null && cur.unprocessed == []
        invariant Valid() && ParsedTo(cur, START, done) && Texts() == old(Texts()) && |done| <= |nodes|
        decreases |nodes| - |done|
      {
        BlankLine(START, cur.unprocessed);
        cur := Mark(cur, START, done, Blank, Neutral(), START);
        done := done + [Typed(START, Blank, Neutral())];
      }
    }

    lemma NothingParsed()
      requires Valid()
      ensures ParsedTo(lines, START, [])
    {
      StartReached(Texts());
    }

    /** The lines of a block up to the next header, in a block that has begun. */
    method ParseEntries(from: FileLine?, block: Progress, ghost before: seq<Typed>)
      returns (ok: bool, cur: FileLine?, s: Progress, ghost done: seq<Typed>)
      requires Valid() && ParsedTo(from, block, before) && block.mode != StartOfFile && |before| <= |nodes|
      modifies nodes`kind, nodes`action
      ensures Texts() == old(Texts()) && Valid()
      ensures !ok ==> EditParse(START, Texts()).None?
      ensures ok ==> ParsedTo(cur, s, done) && s.mode == block.mode && |before| <= |done| <= |nodes|
      ensures ok && cur != null ==> IsHeader(cur.unprocessed)
    {
      hide ParsedTo, EditLine, EditParse;
      cur, s, done := from, block, before;
      while cur != null && !IsHeader(cur.unprocessed)
        invariant Valid() && ParsedTo(cur, s, done) && Texts() == old(Texts())
        invariant s.mode == block.mode && |before| <= |done| <= |nodes|
        decreases |nodes| - |done|
      {
        var line := EditLine(s, cur.unprocessed);
        if line.None? {
          Stuck(cur, s, done);
          return false, cur, s, done;
        }
        EntryKeepsBlock(s, cur.unprocessed);
        cur := Mark(cur, s, done, line.value.kind, line.value.action, line.value.next);
        s, done := line.value.next, done + [line.value];
      }
      ok := true;
    }

    lemma Stuck(cur: FileLine, s: Progress, done: seq<Typed>)
      requires ParsedTo(cur, s, done) && EditLine(s, cur.unprocessed).None?
      ensures Valid() && EditParse(START, Texts()).None?
    {
      hide EditLine, EditParse, Reached, Linked, Distinct;
      StuckLine(Texts(), done, s);
    }

    lemma Finished(s: Progress, done: seq<Typed>)
      requires ParsedTo(null, s, done) && |done| <= |nodes|
      ensures Valid() && EditParse(START, Texts()) == Some(done)
      ensures |done| == |nodes| && forall i | 0 <= i < |nodes| :: Shows(nodes[i], done[i])
    {
      hide EditLine, EditParse, Reached, Linked, Distinct;
      AllReached(Texts(), done, s);
    }

    /** A {{block}}, if the header at hand is its header: the header and the lines up to the next one. */
    method ParseBlock(from: FileLine?, s0: Progress, block: Mode, ghost before: seq<Typed>)
      returns (ok: bool, cur: FileLine?, s: Progress, ghost done: seq<Typed>)
      requires Valid() && ParsedTo(from, s0, before) && |before| <= |nodes|
      requires s0.mode.Rank() < block.Rank() < InActions.Rank()
      requires from != null ==> IsHeader(from.unprocessed) && NoBlock(s0, from.unprocessed, block.Rank() - 1)
      modifies nodes`kind, nodes`action
      ensures Texts() == old(Texts()) && Valid()
      ensures !ok ==> EditParse(START, Texts()).None?
      ensures ok ==> ParsedTo(cur, s, done) && s.mode.Rank() <= block.Rank() && |done| <= |nodes|
      ensures ok && cur != null ==> IsHeader(cur.unprocessed) && NoBlock(s, cur.unprocessed, block.Rank())
    {
      hide ParsedTo, EditLine, EditParse, HeaderMatches;
      ok, cur, s, done := true, from, s0, before;
      if cur != null {
        if HeaderMatches(cur.unprocessed, BlockName(block)) {
          BlockCase(s, cur.unprocessed, block);
          s := s.(mode := block);
          cur := Mark(cur, s0, before, BlockHeader(block), Neutral(), s);
          ok, cur, s, done := ParseEntries(cur, s, before + [Typed(s, BlockHeader(block), Neutral())]);
        }
      }
    }

    /** The sections: each a header with actions and the lines up to the next header. */
    method ParseSections(from: FileLine?, s0: Progress, ghost before: seq<Typed>) returns (ok: bool)
      requires Valid() && ParsedTo(from, s0, before) && |before| <= |nodes|
      requires from != null ==> IsHeader(from.unprocessed) && NoBlock(s0, from.unprocessed, 4)
      modifies nodes`kind, nodes`action
      ensures Texts() == old(Texts()) && Valid() && ok == EditParse(START, Texts()).Some?
      ensures ok ==> forall i | 0 <= i < |nodes| :: Shows(nodes[i], EditParse(START, Texts()).value[i])
    {
      hide ParsedTo, EditLine, EditParse, NoBlock, SectionActions, Shows;
      var cur, s := from, s0;
      ghost var done := before;
      while cur != null
        invariant Valid() && ParsedTo(cur, s, done) && Texts() == old(Texts()) && |done| <= |nodes|
        invariant cur != null ==> IsHeader(cur.unprocessed) && NoBlock(s, cur.unprocessed, 4)
        decreases |nodes| - |done|
      {
        SectionCase(s, cur.unprocessed);
        var action := SectionActions(cur.unprocessed, s.aliases);
        if action.None? {
          Stuck(cur, s, done);
          return false;
        }
        var next := s.(mode := InActions);
        cur := Mark(cur, s, done, ActionHeader, action.value, next);
        done := done + [Typed(next, ActionHeader, action.value)];
        ok, cur, s, done := ParseEntries(cur, next, done);
        if !ok {
          return;
        }
        if cur != null {
          NoBlockInActions(s, cur.unprocessed);
        }
      }
      Finished(s, done);
      ok := true;
    }

    /** `edit_parse_actions_file` */
    method EditParseActionsFile() returns (ok: bool)
      requires Valid()
      modifies nodes`kind, nodes`action
      ensures Texts() == old(Texts()) && Valid() && ok == EditParse(START, Texts()).Some?
      ensures ok ==> forall i | 0 <= i < |nodes| :: Shows(nodes[i], EditParse(START, Texts()).value[i])
    {
      hide ParsedTo, EditLine, EditParse, HeaderMatches, Shows;
      var cur: FileLine?, s := null, START;
      ghost var done;
      cur, done := ParseLeadingBlanks();
      if cur != null && !IsHeader(cur.unprocessed) {
        NoHeaderFirst(cur.unprocessed);
        Stuck(cur, s, done);
        return false;
      }
      ok, cur, s, done := ParseBlock(cur, s, InSettings, done);
      if !ok {
        return;
      }
      ok, cur, s, done := ParseBlock(cur, s, InDescription, done);
      if !ok {
        return;
      }
      ok, cur, s, done := ParseBlock(cur, s, InAliases, done);
      if !ok {
        return;
      }
      ok := ParseSections(cur, s, done);
    }
  }

  lemma NodesOfLinked(first: FileLine?, nodes: seq<FileLine>)
    requires Linked(first, nodes) && Distinct(nodes)
    ensures first == NodeAt(nodes, 0)
    ensures forall i {:trigger nodes[i].next} | 0 <= i < |nodes| :: nodes[i].next == NodeAt(nodes, i + 1)
    ensures forall i, j | 0 <= i < j < |nodes| :: nodes[i] != nodes[j]
  {}

  lemma LinkedNodes(first: FileLine?, nodes: seq<FileLine>)
    requires first == NodeAt(nodes, 0)
    requires forall i {:trigger nodes[i].next} | 0 <= i < |nodes| :: nodes[i].next == NodeAt(nodes, i + 1)
    ensures Linked(first, nodes)
  {}

  lemma InsertedAt<T>(xs: seq<T>, k: nat, x: T)
    requires k <= |xs|
    ensures var ys := Inserted(xs, k, x);
            && |ys| == |xs| + 1 && ys[k] == x
            && (forall i | 0 <= i < k :: ys[i] == xs[i])
            && (forall i | k < i < |ys| :: ys[i] == xs[i - 1])
  {}

  lemma LinesAfterInsert(nodes: seq<FileLine>, k: nat, x: FileLine)
    requires k <= |nodes|
    ensures LinesOf(Inserted(nodes, k, x)) == Inserted(LinesOf(nodes), k, x.AsLine())
  {
    hide Inserted, LinesOf;
    InsertedAt(nodes, k, x);
    InsertedAt(LinesOf(nodes), k, x.AsLine());
  }

  lemma LinesAfterDrop(nodes: seq<FileLine>, k: nat)
    requires k < |nodes|
    ensures LinesOf(Dropped(nodes, k)) == Dropped(LinesOf(nodes), k)
  {
    hide LinesOf;
  }

  lemma InsertKeepsDistinct(nodes: seq<FileLine>, k: nat, x: FileLine)
    requires Distinct(nodes) && k <= |nodes| && x !in nodes
    ensures Distinct(Inserted(nodes, k, x))
  {
    hide Inserted;
    InsertedAt(nodes, k, x);
    forall i | 0 <= i < |nodes|
      ensures nodes[i] != x
    {
      assert nodes[i] in nodes;
    }
  }

  lemma DistinctNodes(nodes: seq<FileLine>)
    requires forall i, j | 0 <= i < j < |nodes| :: nodes[i] != nodes[j]
    ensures Distinct(nodes)
  {}

  lemma {:induction false} NextHeaderIs(kinds: seq<LineType>, i: nat, end: nat)
    requires i <= end <= |kinds| && (forall j | i <= j < end :: kinds[j] != ActionHeader)
    requires end < |kinds| ==> kinds[end] == ActionHeader
    ensures NextHeader(kinds, i) == end
    decreases end - i
  {
    if i < end {
      NextHeaderIs(kinds, i + 1, end);
    }
  }

  /** The old place of what a swap moves to a place. */
  function OldPlace(i: nat, a: nat, b: nat, c: nat, d: nat): int
    requires a <= b <= c <= d
  {
    if i < a || d <= i then i
    else if i < a + (d - c) then c + (i - a)
    else if i < a + (d - c) + (c - b) then i - (a + (d - c)) + b
    else i - (a + (d - c) + (c - b)) + a
  }

  lemma SwapIsPermutation<T>(xs: seq<T>, a: nat, b: nat, c: nat, d: nat)
    requires a <= b <= c <= d <= |xs|
    ensures multiset(Swapped(xs, a, b, c, d)) == multiset(xs)
  {
    assert xs == xs[..a] + xs[a..b] + xs[b..c] + xs[c..d] + xs[d..];
    PiecesArePermuted(xs[..a], xs[a..b], xs[b..c], xs[c..d], xs[d..]);
  }

  lemma PiecesArePermuted<T>(p: seq<T>, x: seq<T>, y: seq<T>, z: seq<T>, q: seq<T>)
    ensures multiset(p + z + y + x + q) == multiset(p + x + y + z + q)
  {}

  lemma OldPlaces<T>(xs: seq<T>, a: nat, b: nat, c: nat, d: nat)
    requires a <= b <= c <= d <= |xs|
    ensures |Swapped(xs, a, b, c, d)| == |xs|
    ensures forall i | 0 <= i < |xs| ::
              0 <= OldPlace(i, a, b, c, d) < |xs| && Swapped(xs, a, b, c, d)[i] == xs[OldPlace(i, a, b, c, d)]
  {
    hide Swapped;
    SwappedAt(xs, a, b, c, d);
  }

  lemma OldPlacesDiffer(i: nat, j: nat, a: nat, b: nat, c: nat, d: nat)
    requires a <= b <= c <= d && i < j
    ensures OldPlace(i, a, b, c, d) != OldPlace(j, a, b, c, d)
  {}

  lemma SwapKeepsDistinct(nodes: seq<FileLine>, a: nat, b: nat, c: nat, d: nat)
    requires Distinct(nodes) && a <= b <= c <= d <= |nodes|
    ensures Distinct(Swapped(nodes, a, b, c, d)) && multiset(Swapped(nodes, a, b, c, d)) == multiset(nodes)
  {
    hide Swapped, OldPlace;
    var swapped := Swapped(nodes, a, b, c, d);
    SwapIsPermutation(nodes, a, b, c, d);
    OldPlaces(nodes, a, b, c, d);
    forall i, j | 0 <= i < j < |swapped|
      ensures swapped[i] != swapped[j]
    {
      OldPlacesDiffer(i, j, a, b, c, d);
    }
  }

  lemma FirstNode(first: FileLine?, nodes: seq<FileLine>)
    requires Linked(first, nodes)
    ensures first == NodeAt(nodes, 0)
  {}

  /** What follows a node once two sections have changed places. */
  ghost function NextAfterSwap(nodes: seq<FileLine>, p: Sections, i: nat): FileLine?
    requires Ordered(nodes, p)
  {
    if i + 1 == p.end1 then NodeAt(nodes, p.end2)
    else if i + 1 == p.end2 then if p.end1 == p.start2 then nodes[p.start1] else nodes[p.end1]
    else if i + 1 == p.start2 then nodes[p.start1]
    else if i + 1 == p.start1 then nodes[p.start2]
    else NodeAt(nodes, i + 1)
  }

  lemma SwappedNext(nodes: seq<FileLine>, p: Sections)
    requires Ordered(nodes, p)
    ensures var swapped := Swapped(nodes, p.start1, p.end1, p.start2, p.end2);
            && |swapped| == |nodes|
            && NodeAt(swapped, 0) == (if p.start1 == 0 then nodes[p.start2] else NodeAt(nodes, 0))
            && forall i | 0 <= i < |nodes| ::
                 var was := OldPlace(i, p.start1, p.end1, p.start2, p.end2);
                 && 0 <= was < |nodes| && swapped[i] == nodes[was]
                 && NodeAt(swapped, i + 1) == NextAfterSwap(nodes, p, was)
  {
    hide Swapped;
    SwappedAt(nodes, p.start1, p.end1, p.start2, p.end2);
  }

  lemma LinesAfterSwap(nodes: seq<FileLine>, p: Sections)
    requires Ordered(nodes, p)
    ensures LinesOf(Swapped(nodes, p.start1, p.end1, p.start2, p.end2))
         == Swapped(LinesOf(nodes), p.start1, p.end1, p.start2, p.end2)
  {
    hide Swapped, LinesOf;
    SwappedAt(nodes, p.start1, p.end1, p.start2, p.end2);
    SwappedAt(LinesOf(nodes), p.start1, p.end1, p.start2, p.end2);
  }

  // ----- Parsing, line by line ----------------------------------------------------

  ghost predicate Shows(node: FileLine, line: Typed)
    reads node
  {
    node.kind == line.kind && (line.kind == ActionHeader ==> node.action == line.action)
  }

  /** Parsing has come as far as these lines, and stands in state s. */
  ghost predicate Reached(texts: seq<string>, done: seq<Typed>, s: Progress) {
    && |done| <= |texts|
    && EditParse(START, texts)
       == match EditParse(s, texts[|done|..])
          case None => None
          case Some(more) => Some(done + more)
  }

  lemma StartReached(texts: seq<string>)
    ensures Reached(texts, [], START)
  {
    hide EditLine;
    assert texts[0..] == texts;
    if EditParse(START, texts).Some? {
      assert [] + EditParse(START, texts).value == EditParse(START, texts).value;
    }
  }

  lemma OneMoreReached(texts: seq<string>, done: seq<Typed>, s: Progress, line: Typed)
    requires Reached(texts, done, s) && |done| < |texts| && EditLine(s, texts[|done|]) == Some(line)
    ensures Reached(texts, done + [line], line.next)
  {
    hide EditLine;
    var rest := texts[|done|..];
    assert rest[1..] == texts[|done| + 1..];
    if EditParse(line.next, rest[1..]).Some? {
      var more := EditParse(line.next, rest[1..]).value;
      assert done + ([line] + more) == done + [line] + more;
    }
  }

  lemma StuckLine(texts: seq<string>, done: seq<Typed>, s: Progress)
    requires Reached(texts, done, s) && |done| < |texts| && EditLine(s, texts[|done|]).None?
    ensures EditParse(START, texts).None?
  {
    hide EditLine;
  }

  lemma AllReached(texts: seq<string>, done: seq<Typed>, s: Progress)
    requires Reached(texts, done, s) && |done| == |texts|
    ensures EditParse(START, texts) == Some(done)
  {
    assert done + [] == done;
  }

  function BlockName(block: Mode): string {
    match block
    case InSettings => "settings"
    case InDescription => "description"
    case _ => "alias"
  }

  function BlockHeader(block: Mode): LineType {
    match block
    case InSettings => SettingsHeader
    case InDescription => DescriptionHeader
    case _ => AliasHeader
  }

  /** The header is not that of a block up to a rank that may still come. */
  ghost predicate NoBlock(s: Progress, text: string, rank: nat) {
    && (s.mode.Rank() < 2 <= rank ==> !HeaderMatches(text, BlockName(InSettings)))
    && (s.mode.Rank() < 3 <= rank ==> !HeaderMatches(text, BlockName(InDescription)))
    && (s.mode.Rank() < 4 <= rank ==> !HeaderMatches(text, BlockName(InAliases)))
  }

  lemma NoBlockInActions(s: Progress, text: string)
    requires s.mode == InActions
    ensures NoBlock(s, text, 4)
  {}

  lemma NoHeaderFirst(text: string)
    requires text != [] && !IsHeader(text)
    ensures EditLine(START, text).None?
  {}

  lemma EntryKeepsBlock(s: Progress, text: string)
    requires !IsHeader(text) && EditLine(s, text).Some?
    ensures EditLine(s, text).value.next.mode == s.mode
  {
    hide SplitOnEquals, GetActions;
  }

  lemma BlockCase(s: Progress, text: string, block: Mode)
    requires IsHeader(text) && s.mode.Rank() < block.Rank() < 5 && NoBlock(s, text, block.Rank() - 1)
    requires HeaderMatches(text, BlockName(block))
    ensures EditLine(s, text) == Some(Typed(s.(mode := block), BlockHeader(block), Neutral()))
  {
    hide HeaderMatches, SectionActions;
  }

  lemma SectionCase(s: Progress, text: string)
    requires IsHeader(text) && NoBlock(s, text, 4)
    ensures EditLine(s, text) == if SectionActions(text, s.aliases).None? then None
                                 else Some(Typed(s.(mode := InActions), ActionHeader,
                                     SectionActions(text, s.aliases).value))
  {
    hide HeaderMatches, SectionActions;
  }
}
