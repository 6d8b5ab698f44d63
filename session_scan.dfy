/**
 * The session count of `getRealtimeQuota`: the global history is read
 * backwards in chunks, each chunk is split into lines together with the
 * partial line carried over from the chunk after it, and the lines are
 * visited newest first. A line counts when it is a prompt inside the
 * four-hour window and not a slash command; the first stamped line at or
 * before the window's start ends the scan.
 */
module SessionScan {
  import opened Wrappers
  import opened Text
  import opened LogEntry

  /** The length of a session, four hours in milliseconds. */
  const SessionWindowMs := 4 * 60 * 60 * 1000

  /** The largest chunk, 64 KiB. */
  const ChunkCap := 64 * 1024

  /** `Math.min(fileSize, 64 * 1024)` */
  function BufferSize(fileSize: nat): (b: nat)
    ensures b <= ChunkCap && b <= fileSize
    ensures b == fileSize || b == ChunkCap
    ensures b == 0 <==> fileSize == 0
  {
    if fileSize < ChunkCap then fileSize else ChunkCap
  }

  /** The outcome of `content.find(…)`: the first match, none, or a `TypeError` on a `null` element. */
  datatype Search = Found(item: Item) | NotFound | Throws

  /** `c.type === 'text' || (c.text && typeof c.text === 'string')` on an element that is an object. */
  predicate IsTextPart(it: Item)
    requires it.Part?
  {
    it.typeIsText || (it.text.Str? && it.text.s != [])
  }

  /** `find` passes every element before `k` by: none is `null`, none is a text part. */
  predicate PassedBy(items: seq<Item>, k: nat)
    requires k <= |items|
  {
    forall j :: 0 <= j < k ==> items[j].Part? && !IsTextPart(items[j])
  }

  /**
   * `content.find(…)`, element by element from the front: the first text
   * part, unless a `null` element comes first, on which the callback throws.
   */
  function FindTextItem(items: seq<Item>): (r: Search)
    ensures r.Found? ==> exists k :: 0 <= k < |items| && PassedBy(items, k) && items[k] == r.item && items[k].Part? && IsTextPart(items[k])
    ensures r.Throws? ==> exists k :: 0 <= k < |items| && PassedBy(items, k) && items[k].NullItem?
    ensures r.NotFound? <==> PassedBy(items, |items|)
    decreases |items|
  {
    if items == [] then NotFound
    else if items[0].NullItem? then (assert PassedBy(items, 0); Throws)
    else if IsTextPart(items[0]) then (assert PassedBy(items, 0); Found(items[0]))
    else
      var r := FindTextItem(items[1..]);
      PassedByCons(items);
      r
  }

  /** Passing the head by and then `k` more elements is passing `k + 1` by. */
  lemma PassedByCons(items: seq<Item>)
    requires items != [] && items[0].Part? && !IsTextPart(items[0])
    ensures forall k :: 0 <= k <= |items| - 1 ==> (PassedBy(items[1..], k) <==> PassedBy(items, k + 1))
  {
    forall k | 0 <= k <= |items| - 1
      ensures PassedBy(items[1..], k) <==> PassedBy(items, k + 1)
    {
      if PassedBy(items[1..], k) {
        forall j | 0 <= j < k + 1 ensures items[j].Part? && !IsTextPart(items[j]) {
          if j > 0 { assert items[j] == items[1..][j - 1]; }
        }
      }
      if PassedBy(items, k + 1) {
        forall j | 0 <= j < k ensures items[1..][j].Part? && !IsTextPart(items[1..][j]) {
          assert items[1..][j] == items[j + 1];
        }
      }
    }
  }

  /** Elements `find` passes by do not change its outcome. */
  lemma {:induction false} FindAfter(items: seq<Item>, k: nat)
    requires k <= |items| && PassedBy(items, k)
    ensures FindTextItem(items) == FindTextItem(items[k..])
    decreases k
  {
    if k > 0 {
      assert items[0].Part? && !IsTextPart(items[0]);
      PassedByCons(items);
      FindAfter(items[1..], k - 1);
      assert items[1..][k - 1..] == items[k..];
    }
  }

  /** `isQuotaConsuming` and `content` before the slash-command test, or a `TypeError` on the way. */
  datatype Claim = NotConsuming | Consuming(content: Value) | Fails

  /** The user message's content: a string `content`, else `message.content`, else the first text part's. */
  predicate UserMessage(e: HistoryEntry) {
    e.display.None? && e.userTagged
  }

  /**
   * The `display` / user-message branch for an entry inside the window. A
   * user message takes its content from the first of a string `content`, a
   * string `message.content` and the `text || content || ''` of the first
   * text part of a `content` array; otherwise its content is empty.
   */
  function ClaimOf(e: HistoryEntry): (r: Claim)
    ensures e.display.Some? ==> r == Consuming(Str(e.display.value))
    ensures r.NotConsuming? <==> e.display.None? && !e.userTagged
    ensures UserMessage(e) && e.content.Str? ==> r == Consuming(e.content)
    ensures UserMessage(e) && !e.content.Str? && e.messageContent.Some? ==>
      r == Consuming(Str(e.messageContent.value))
    ensures (UserMessage(e) && !e.content.Str? && e.messageContent.None? && e.content.Items? &&
             FindTextItem(e.content.items).Found?) ==>
      var it := FindTextItem(e.content.items).item; r == Consuming(Or(it.text, Or(it.content, Str(""))))
    ensures (UserMessage(e) && !e.content.Str? && e.messageContent.None? &&
             (!e.content.Items? || FindTextItem(e.content.items).NotFound?)) ==>
      r == Consuming(Str(""))
    ensures r.Fails? <==>
      (UserMessage(e) && !e.content.Str? && e.messageContent.None? && e.content.Items? &&
       FindTextItem(e.content.items).Throws?)
  {
    if e.display.Some? then Consuming(Str(e.display.value))
    else if e.userTagged then
      if e.content.Str? then Consuming(e.content)
      else if e.messageContent.Some? then Consuming(Str(e.messageContent.value))
      else if e.content.Items? && |e.content.items| > 0 then
        match FindTextItem(e.content.items)
        case Throws => Fails
        case NotFound => Consuming(Str(""))
        case Found(it) => Consuming(Or(it.text, Or(it.content, Str(""))))
      else Consuming(Str(""))
    else NotConsuming
  }

  /** `content.trim().startsWith('/')` */
  predicate IsSlashCommand(s: string) {
    var t := Trim(s);
    t != [] && t[0] == '/'
  }

  /** What visiting one line does. */
  datatype Outcome = Counted(tx: int) | Ignored | Halt

  /** The body of the per-line `try` block, from the parsed entry on. */
  function ClassifyEntry(e: HistoryEntry, windowStart: int): Outcome {
    var tx := e.timestamp;
    if tx != 0 && tx > windowStart then
      match ClaimOf(e)
      case NotConsuming => Ignored
      case Fails => Ignored
      case Consuming(c) =>
        if !Truthy(c) then Counted(tx)
        else if c.Str? then (if IsSlashCommand(c.s) then Ignored else Counted(tx))
        else Ignored
    else if tx != 0 && tx <= windowStart then Halt
    else Ignored
  }

  /** A blank line, or one that does not parse, is skipped; otherwise the entry decides. */
  function Classify(line: string, parse: string -> Option<HistoryEntry>, windowStart: int): Outcome {
    if Trim(line) == [] then Ignored
    else
      match parse(line)
      case None => Ignored
      case Some(e) => ClassifyEntry(e, windowStart)
  }

  /** `sessionMessageCount`, `oldestMessageTime`, `foundAnyMessage` and `stop`. */
  datatype Tally = Tally(count: nat, oldest: int, found: bool, stopped: bool)

  function Start(now: int): Tally {
    Tally(0, now, false, false)
  }

  /** One visited line; a scan that has stopped visits nothing more. */
  function Visit(acc: Tally, o: Outcome): Tally {
    if acc.stopped then acc
    else
      match o
      case Counted(tx) => Tally(acc.count + 1, if tx < acc.oldest then tx else acc.oldest, true, false)
      case Halt => acc.(stopped := true)
      case Ignored => acc
  }

  /** The scan over `lines`, given newest first. */
  function TallyFrom(lines: seq<string>, parse: string -> Option<HistoryEntry>, windowStart: int, acc: Tally): Tally
    decreases |lines|
  {
    if lines == [] then acc
    else TallyFrom(lines[1..], parse, windowStart, Visit(acc, Classify(lines[0], parse, windowStart)))
  }

  // ---------------------------------------------------------------------------
  // An independent description of the scan: the stamps of the counted lines
  // before the first halting line.

  function Stamps(lines: seq<string>, parse: string -> Option<HistoryEntry>, windowStart: int): seq<int>
    decreases |lines|
  {
    if lines == [] then []
    else
      match Classify(lines[0], parse, windowStart)
      case Halt => []
      case Counted(tx) => [tx] + Stamps(lines[1..], parse, windowStart)
      case Ignored => Stamps(lines[1..], parse, windowStart)
  }

  predicate Halts(lines: seq<string>, parse: string -> Option<HistoryEntry>, windowStart: int)
    decreases |lines|
  {
    lines != [] && (Classify(lines[0], parse, windowStart) == Halt || Halts(lines[1..], parse, windowStart))
  }

  /** The least of `m` and the elements of `ts`. */
  function MinOf(m: int, ts: seq<int>): (r: int)
    ensures r <= m && forall k :: 0 <= k < |ts| ==> r <= ts[k]
    ensures r == m || exists k :: 0 <= k < |ts| && r == ts[k]
    decreases |ts|
  {
    if ts == [] then m
    else
      var r := MinOf(if ts[0] < m then ts[0] else m, ts[1..]);
      assert forall k :: 1 <= k < |ts| ==> ts[k] == ts[1..][k - 1];
      r
  }

  /**
   * The scan counts exactly the lines that `Stamps` lists, its oldest time is
   * the least of those stamps and the start value, and it stops exactly when
   * some line halts.
   */
  lemma {:induction false} TallyIsStamps(lines: seq<string>, parse: string -> Option<HistoryEntry>, windowStart: int, acc: Tally)
    requires !acc.stopped
    ensures var s := Stamps(lines, parse, windowStart);
      TallyFrom(lines, parse, windowStart, acc)
        == Tally(acc.count + |s|, MinOf(acc.oldest, s), acc.found || |s| > 0, Halts(lines, parse, windowStart))
    decreases |lines|
  {
    if lines != [] {
      var o := Classify(lines[0], parse, windowStart);
      var rest := lines[1..];
      match o
      case Halt =>
        TallyStopped(rest, parse, windowStart, acc.(stopped := true));
      case Ignored =>
        TallyIsStamps(rest, parse, windowStart, acc);
      case Counted(tx) =>
        var next := Visit(acc, o);
        TallyIsStamps(rest, parse, windowStart, next);
        var s := Stamps(rest, parse, windowStart);
        assert ([tx] + s)[1..] == s;
    }
  }

  /** Once stopped, the scan takes nothing more in. */
  lemma {:induction false} TallyStopped(lines: seq<string>, parse: string -> Option<HistoryEntry>, windowStart: int, acc: Tally)
    requires acc.stopped
    ensures TallyFrom(lines, parse, windowStart, acc) == acc
    decreases |lines|
  {
    if lines != [] {
      TallyStopped(lines[1..], parse, windowStart, acc);
    }
  }

  /** Scanning `xs` and then `ys` is scanning `xs + ys`. */
  lemma {:induction false} TallyAppend(xs: seq<string>, ys: seq<string>, parse: string -> Option<HistoryEntry>, windowStart: int, acc: Tally)
    ensures TallyFrom(xs + ys, parse, windowStart, acc)
         == TallyFrom(ys, parse, windowStart, TallyFrom(xs, parse, windowStart, acc))
    decreases |xs|
  {
    if xs != [] {
      assert (xs + ys)[1..] == xs[1..] + ys;
      TallyAppend(xs[1..], ys, parse, windowStart, Visit(acc, Classify(xs[0], parse, windowStart)));
    } else {
      assert xs + ys == ys;
    }
  }

  /** Every counted stamp lies after the window's start. */
  lemma {:induction false} StampsInWindow(lines: seq<string>, parse: string -> Option<HistoryEntry>, windowStart: int)
    ensures forall k :: 0 <= k < |Stamps(lines, parse, windowStart)| ==> Stamps(lines, parse, windowStart)[k] > windowStart
    decreases |lines|
  {
    if lines != [] {
      StampsInWindow(lines[1..], parse, windowStart);
      var o := Classify(lines[0], parse, windowStart);
      if o.Counted? {
        CountedInWindow(lines[0], parse, windowStart);
        var s := Stamps(lines[1..], parse, windowStart);
        assert Stamps(lines, parse, windowStart) == [o.tx] + s;
      }
    }
  }

  /**
   * The session tally started at `now`: found exactly when something counted,
   * and the oldest time lies inside the window and not after `now`.
   */
  lemma SessionBounds(lines: seq<string>, parse: string -> Option<HistoryEntry>, now: int)
    ensures var t := TallyFrom(lines, parse, now - SessionWindowMs, Start(now));
      (t.found <==> t.count > 0) && now - SessionWindowMs < t.oldest <= now
  {
    var ws := now - SessionWindowMs;
    TallyIsStamps(lines, parse, ws, Start(now));
    StampsInWindow(lines, parse, ws);
  }

  // ---------------------------------------------------------------------------
  // The counting rule, line by line.

  /** A counted line carries its own stamp, which is inside the window. */
  lemma CountedInWindow(line: string, parse: string -> Option<HistoryEntry>, windowStart: int)
    requires Classify(line, parse, windowStart).Counted?
    ensures Trim(line) != [] && parse(line).Some?
    ensures var tx := Classify(line, parse, windowStart).tx; tx == parse(line).value.timestamp && tx > windowStart
  {
  }

  /** A line halts the scan exactly when it parses and carries a non-zero stamp at or before the window's start. */
  lemma HaltIff(line: string, parse: string -> Option<HistoryEntry>, windowStart: int)
    ensures Classify(line, parse, windowStart) == Halt
        <==> Trim(line) != [] && parse(line).Some?
             && parse(line).value.timestamp != 0 && parse(line).value.timestamp <= windowStart
  {
  }

  /** A zero or invalid stamp neither counts nor stops the scan. */
  lemma UnstampedIgnored(e: HistoryEntry, windowStart: int)
    requires e.timestamp == 0
    ensures ClassifyEntry(e, windowStart) == Ignored
  {
  }

  /** Blank lines, and lines that hold only whitespace, are skipped. */
  lemma BlankIgnored(line: string, parse: string -> Option<HistoryEntry>, windowStart: int)
    requires AllSpace(line)
    ensures Classify(line, parse, windowStart) == Ignored
  {
  }

  /** A prompt stored in `display` counts exactly when it is not a slash command. */
  lemma DisplayCountsIff(e: HistoryEntry, windowStart: int)
    requires e.display.Some? && e.timestamp != 0 && e.timestamp > windowStart
    ensures ClassifyEntry(e, windowStart) == (if IsSlashCommand(e.display.value) then Ignored else Counted(e.timestamp))
  {
  }

  /** An entry that is neither a `display` prompt nor a user message is never counted. */
  lemma OtherEntriesNotCounted(e: HistoryEntry, windowStart: int)
    requires e.display.None? && !e.userTagged
    ensures !ClassifyEntry(e, windowStart).Counted?
  {
  }

  /** A user message whose content is a non-empty string counts exactly when it is not a slash command. */
  lemma UserContentCountsIff(e: HistoryEntry, windowStart: int)
    requires e.display.None? && e.userTagged && e.content.Str? && e.content.s != []
    requires e.timestamp != 0 && e.timestamp > windowStart
    ensures ClassifyEntry(e, windowStart).Counted? <==> !IsSlashCommand(e.content.s)
  {
  }

  /** With no string `content`, a string `message.content` decides: it counts unless it is a slash command. */
  lemma MessageContentCountsIff(e: HistoryEntry, windowStart: int)
    requires UserMessage(e) && !e.content.Str? && e.messageContent.Some?
    requires e.timestamp != 0 && e.timestamp > windowStart
    ensures ClassifyEntry(e, windowStart).Counted? <==> !IsSlashCommand(e.messageContent.value)
  {
  }

  /** A user message without readable text still counts: its content is the empty string. */
  lemma UserWithoutTextCounts(e: HistoryEntry, windowStart: int)
    requires UserMessage(e) && !e.content.Str? && e.messageContent.None?
    requires !e.content.Items? || FindTextItem(e.content.items).NotFound?
    requires e.timestamp != 0 && e.timestamp > windowStart
    ensures ClassifyEntry(e, windowStart) == Counted(e.timestamp)
  {
  }

  /**
   * Otherwise the first text part of a `content` array decides, at whatever
   * index `k` it stands: its non-empty string `text` counts unless it is a
   * slash command.
   */
  lemma TextPartCountsIff(e: HistoryEntry, windowStart: int, k: nat)
    requires UserMessage(e) && e.messageContent.None? && e.content.Items?
    requires k < |e.content.items| && PassedBy(e.content.items, k)
    requires e.content.items[k].Part? && e.content.items[k].text.Str? && e.content.items[k].text.s != []
    requires e.timestamp != 0 && e.timestamp > windowStart
    ensures ClassifyEntry(e, windowStart).Counted? <==> !IsSlashCommand(e.content.items[k].text.s)
  {
    FirstTextPart(e.content.items, k);
  }

  /** A text part tagged `type: 'text'` without a `text` falls back to its string `content`. */
  lemma TextPartContentCountsIff(e: HistoryEntry, windowStart: int, k: nat)
    requires UserMessage(e) && e.messageContent.None? && e.content.Items?
    requires k < |e.content.items| && PassedBy(e.content.items, k)
    requires e.content.items[k].Part? && e.content.items[k].typeIsText && !Truthy(e.content.items[k].text)
    requires e.content.items[k].content.Str?
    requires e.timestamp != 0 && e.timestamp > windowStart
    ensures ClassifyEntry(e, windowStart).Counted? <==> !IsSlashCommand(e.content.items[k].content.s)
  {
    FirstTextPart(e.content.items, k);
  }

  /** A first text part whose `text` is truthy but not a string has no `trim`: the line is skipped. */
  lemma NonStringTextSkipped(e: HistoryEntry, windowStart: int, k: nat)
    requires UserMessage(e) && e.messageContent.None? && e.content.Items?
    requires k < |e.content.items| && PassedBy(e.content.items, k)
    requires e.content.items[k].Part? && e.content.items[k].typeIsText
    requires Truthy(e.content.items[k].text) && !e.content.items[k].text.Str?
    requires e.timestamp != 0 && e.timestamp > windowStart
    ensures ClassifyEntry(e, windowStart) == Ignored
  {
    FirstTextPart(e.content.items, k);
  }

  /** `find` returns the text part at `k` when it passes every element before it by. */
  lemma FirstTextPart(items: seq<Item>, k: nat)
    requires k < |items| && PassedBy(items, k) && items[k].Part? && IsTextPart(items[k])
    ensures FindTextItem(items) == Found(items[k])
  {
    FindAfter(items, k);
    assert items[k..][0] == items[k];
  }

  /** A `null` element ahead of every text part makes `find` throw, and the line is skipped. */
  lemma NullItemSkipped(e: HistoryEntry, windowStart: int, k: nat)
    requires UserMessage(e) && e.messageContent.None? && e.content.Items?
    requires k < |e.content.items| && PassedBy(e.content.items, k) && e.content.items[k].NullItem?
    ensures ClassifyEntry(e, windowStart) == (if e.timestamp != 0 && e.timestamp <= windowStart then Halt else Ignored)
  {
    FindAfter(e.content.items, k);
    assert e.content.items[k..][0] == e.content.items[k];
  }

  // ---------------------------------------------------------------------------
  // The chunked reader.

  lemma ReverseStep(lines: seq<string>, i: nat)
    requires i < |lines|
    ensures Reverse(lines[i..]) == Reverse(lines[i + 1..]) + [lines[i]]
  {
    assert lines[i..] == [lines[i]] + lines[i + 1..];
    ReverseConcat([lines[i]], lines[i + 1..]);
    assert Reverse([lines[i]]) == [lines[i]];
  }

  /**
   * The inner `for` loop: the lines of one chunk, from the last to the first,
   * until a line halts the scan.
   */
  method VisitChunk(lines: seq<string>, parse: string -> Option<HistoryEntry>, windowStart: int, acc0: Tally)
    returns (acc: Tally)
    requires !acc0.stopped
    ensures acc == TallyFrom(Reverse(lines), parse, windowStart, acc0)
  {
    acc := acc0;
    var i := |lines| - 1;
    while i >= 0
      invariant -1 <= i < |lines|
      invariant !acc.stopped
      invariant acc == TallyFrom(Reverse(lines[i + 1..]), parse, windowStart, acc0)
    {
      var line := lines[i];
      ChunkStep(lines, i, parse, windowStart, acc0, acc);
      if Trim(line) == [] {
        i := i - 1;
        continue;
      }
      match parse(line) {
        case None =>
        case Some(e) =>
          match ClassifyEntry(e, windowStart) {
            case Counted(tx) =>
              acc := Tally(acc.count + 1, if tx < acc.oldest then tx else acc.oldest, true, false);
            case Halt =>
              acc := acc.(stopped := true);
              HaltRest(lines, i, parse, windowStart, acc0, acc);
              return;
            case Ignored =>
          }
      }
      i := i - 1;
    }
  }

  /** Visiting line `i` after the lines behind it. */
  lemma ChunkStep(lines: seq<string>, i: nat, parse: string -> Option<HistoryEntry>, windowStart: int, acc0: Tally, acc: Tally)
    requires i < |lines|
    requires acc == TallyFrom(Reverse(lines[i + 1..]), parse, windowStart, acc0)
    ensures TallyFrom(Reverse(lines[i..]), parse, windowStart, acc0) == Visit(acc, Classify(lines[i], parse, windowStart))
  {
    ReverseStep(lines, i);
    TallyAppend(Reverse(lines[i + 1..]), [lines[i]], parse, windowStart, acc0);
  }

  /** After a halt at line `i`, the lines before it leave the tally alone. */
  lemma HaltRest(lines: seq<string>, i: nat, parse: string -> Option<HistoryEntry>, windowStart: int, acc0: Tally, acc: Tally)
    requires i < |lines| && acc.stopped
    requires acc == TallyFrom(Reverse(lines[i..]), parse, windowStart, acc0)
    ensures acc == TallyFrom(Reverse(lines), parse, windowStart, acc0)
  {
    assert lines == lines[..i] + lines[i..];
    ReverseConcat(lines[..i], lines[i..]);
    TallyAppend(Reverse(lines[i..]), Reverse(lines[..i]), parse, windowStart, acc0);
    TallyStopped(Reverse(lines[..i]), parse, windowStart, acc);
  }

  /**
   * Re-joining a chunk with the carried partial line: the lines of
   * `file[lo..]` are those of the chunk `file[lo..cut]` followed by the
   * remainder, then the lines visited already.
   */
  lemma ChunkLines(file: string, lo: nat, cut: nat, remainder: string, visited: seq<string>)
    requires lo <= cut <= |file|
    requires Split(file[cut..], '\n') == [remainder] + visited
    ensures Split(file[lo..], '\n') == Split(file[lo..cut] + remainder, '\n') + visited
  {
    assert file[lo..] == file[lo..cut] + file[cut..];
    SplitGlue(file[lo..cut], file[cut..], remainder, visited, '\n');
  }

  /** The lines of the whole file end with those of any suffix, apart from the suffix's first, partial line. */
  lemma FileEndsWith(file: string, cut: nat, remainder: string, visited: seq<string>)
    requires cut <= |file|
    requires Split(file[cut..], '\n') == [remainder] + visited
    ensures var sa := Split(file[..cut], '\n');
      Split(file, '\n') == sa[..|sa| - 1] + [sa[|sa| - 1] + remainder] + visited
  {
    assert file == file[..cut] + file[cut..];
    SplitConcat(file[..cut], file[cut..], '\n');
    assert ([remainder] + visited)[1..] == visited;
  }

  /** The scan has reached its verdict once it has stopped, whatever lies before. */
  lemma StoppedEarly(file: string, cut: nat, remainder: string, visited: seq<string>,
                     parse: string -> Option<HistoryEntry>, windowStart: int, start: Tally, t: Tally)
    requires cut <= |file|
    requires Split(file[cut..], '\n') == [remainder] + visited
    requires t == TallyFrom(Reverse(visited), parse, windowStart, start) && t.stopped
    ensures t == TallyFrom(Reverse(Split(file, '\n')), parse, windowStart, start)
  {
    FileEndsWith(file, cut, remainder, visited);
    var sa := Split(file[..cut], '\n');
    var before := sa[..|sa| - 1] + [sa[|sa| - 1] + remainder];
    ReverseConcat(before, visited);
    TallyAppend(Reverse(visited), Reverse(before), parse, windowStart, start);
    TallyStopped(Reverse(before), parse, windowStart, t);
  }

  lemma TallyBlank(parse: string -> Option<HistoryEntry>, windowStart: int, t: Tally)
    ensures TallyFrom(Reverse([""]), parse, windowStart, t) == t
  {
    assert Reverse([""]) == [""];
    assert Trim("") == [];
  }

  /** A chunk that does not reach the file's start: its first line is carried on. */
  lemma ChunkCarry(file: string, pos: nat, cut: nat, remainder: string, visited: seq<string>)
    requires 0 < pos < cut <= |file|
    requires Split(file[cut..], '\n') == [remainder] + visited
    ensures var full := Split(file[pos..cut] + remainder, '\n');
      Split(file[pos..], '\n') == [full[0]] + (full[1..] + visited)
  {
    ChunkLines(file, pos, cut, remainder, visited);
    var full := Split(file[pos..cut] + remainder, '\n');
    assert full == [full[0]] + full[1..];
  }

  /** A chunk read from the file's start: every line has been seen. */
  lemma ChunkFirst(file: string, cut: nat, remainder: string, visited: seq<string>)
    requires 0 < cut <= |file|
    requires Split(file[cut..], '\n') == [remainder] + visited
    ensures Split(file[0..cut] + remainder, '\n') + visited == Split(file, '\n')
  {
    ChunkLines(file, 0, cut, remainder, visited);
    assert file[0..] == file;
  }

  /** Visiting a new chunk's lines after the ones seen so far. */
  lemma TallyExtend(lines: seq<string>, visited: seq<string>, parse: string -> Option<HistoryEntry>, windowStart: int, start: Tally)
    ensures TallyFrom(Reverse(lines + visited), parse, windowStart, start)
         == TallyFrom(Reverse(lines), parse, windowStart, TallyFrom(Reverse(visited), parse, windowStart, start))
  {
    ReverseConcat(lines, visited);
    TallyAppend(Reverse(visited), Reverse(lines), parse, windowStart, start);
  }

  /** The variables of the `while` loop: `pos`, `remainder` and the tally (which holds `stop`). */
  datatype ScanState = ScanState(pos: int, remainder: string, acc: Tally)

  /**
   * One pass of the loop body, the inner loop given by its specification; the
   * chunk read at `readPos` ends at `pos + bufferSize` whether or not `pos < 0`.
   */
  function ScanRound(file: string, bufferSize: nat, parse: string -> Option<HistoryEntry>, windowStart: int, st: ScanState): (r: ScanState)
    requires 0 <= st.pos + bufferSize <= |file|
    ensures r.pos == st.pos - bufferSize
  {
    var readPos := if st.pos < 0 then 0 else st.pos;
    var lines := Split(file[readPos..st.pos + bufferSize] + st.remainder, '\n');
    var remainder := if st.pos > 0 then lines[0] else "";
    var visit := if st.pos > 0 then lines[1..] else lines;
    ScanState(st.pos - bufferSize, remainder, TallyFrom(Reverse(visit), parse, windowStart, st.acc))
  }

  /**
   * What the loop keeps: with `cut = pos + bufferSize`, everything from `cut`
   * on has been read; its first, partial line is the remainder and the others
   * have been visited. Once `cut` reaches 0 the whole file has been visited.
   */
  ghost predicate ScanInv(file: string, bufferSize: nat, parse: string -> Option<HistoryEntry>, windowStart: int, start: Tally, st: ScanState) {
    var cut := st.pos + bufferSize;
    0 <= cut <= |file| &&
    if cut > 0 then
      var seen := Split(file[cut..], '\n');
      st.remainder == seen[0] && st.acc == TallyFrom(Reverse(seen[1..]), parse, windowStart, start)
    else
      st.remainder == "" && st.acc == TallyFrom(Reverse(Split(file, '\n')), parse, windowStart, start)
  }

  lemma ScanInvInit(file: string, parse: string -> Option<HistoryEntry>, windowStart: int, start: Tally)
    ensures var b := BufferSize(|file|); ScanInv(file, b, parse, windowStart, start, ScanState(|file| - b, "", start))
  {
    var b := BufferSize(|file|);
    if file == [] {
      assert b == 0;
      TallyBlank(parse, windowStart, start);
    } else {
      assert |file| - b + b == |file|;
      assert file[|file|..] == [];
      var seen := Split([], '\n');
      assert seen == [""] && seen[1..] == [];
      assert Reverse(seen[1..]) == [];
    }
  }

  /**
   * A pass keeps the invariant, and a pass that takes `pos` below
   * `-bufferSize` ends with every line visited.
   */
  lemma ScanRoundKeeps(file: string, bufferSize: nat, parse: string -> Option<HistoryEntry>, windowStart: int, start: Tally, st: ScanState)
    requires bufferSize > 0 && ScanInv(file, bufferSize, parse, windowStart, start, st)
    ensures var next := ScanRound(file, bufferSize, parse, windowStart, st);
      if next.pos + bufferSize >= 0 then ScanInv(file, bufferSize, parse, windowStart, start, next)
      else next.acc == TallyFrom(Reverse(Split(file, '\n')), parse, windowStart, start)
  {
    if st.pos > 0 {
      RoundCarry(file, bufferSize, parse, windowStart, start, st);
    } else if st.pos + bufferSize > 0 {
      RoundFirst(file, bufferSize, parse, windowStart, start, st);
    } else {
      RoundPast(file, bufferSize, parse, windowStart, start, st);
    }
  }

  /** A pass over a chunk that stops short of the file's start. */
  lemma RoundCarry(file: string, bufferSize: nat, parse: string -> Option<HistoryEntry>, windowStart: int, start: Tally, st: ScanState)
    requires bufferSize > 0 && ScanInv(file, bufferSize, parse, windowStart, start, st) && st.pos > 0
    ensures ScanInv(file, bufferSize, parse, windowStart, start, ScanRound(file, bufferSize, parse, windowStart, st))
  {
    var pos: nat := st.pos;
    var cut := pos + bufferSize;
    var seen := Split(file[cut..], '\n');
    var visited := seen[1..];
    assert seen == [st.remainder] + visited;
    ChunkCarry(file, pos, cut, st.remainder, visited);
    var full := Split(file[pos..cut] + st.remainder, '\n');
    var next := ScanRound(file, bufferSize, parse, windowStart, st);
    assert next.remainder == full[0];
    assert file[(if st.pos < 0 then 0 else st.pos)..st.pos + bufferSize] == file[pos..cut];
    assert next.acc == TallyFrom(Reverse(full[1..]), parse, windowStart, st.acc);
    TallyExtend(full[1..], visited, parse, windowStart, start);
    var seen' := Split(file[pos..], '\n');
    assert seen'[0] == full[0] && seen'[1..] == full[1..] + visited;
  }

  /** A pass over the chunk that reaches the file's start. */
  lemma RoundFirst(file: string, bufferSize: nat, parse: string -> Option<HistoryEntry>, windowStart: int, start: Tally, st: ScanState)
    requires bufferSize > 0 && ScanInv(file, bufferSize, parse, windowStart, start, st)
    requires st.pos <= 0 < st.pos + bufferSize
    ensures var next := ScanRound(file, bufferSize, parse, windowStart, st);
      next.remainder == "" && next.acc == TallyFrom(Reverse(Split(file, '\n')), parse, windowStart, start)
  {
    var cut: nat := st.pos + bufferSize;
    var seen := Split(file[cut..], '\n');
    var visited := seen[1..];
    assert seen == [st.remainder] + visited;
    ChunkFirst(file, cut, st.remainder, visited);
    var full := Split(file[0..cut] + st.remainder, '\n');
    var next := ScanRound(file, bufferSize, parse, windowStart, st);
    assert next == ScanState(st.pos - bufferSize, "", TallyFrom(Reverse(full), parse, windowStart, st.acc));
    TallyExtend(full, visited, parse, windowStart, start);
  }

  /** The extra pass once the file's start has been read: it sees one empty line. */
  lemma RoundPast(file: string, bufferSize: nat, parse: string -> Option<HistoryEntry>, windowStart: int, start: Tally, st: ScanState)
    requires bufferSize > 0 && ScanInv(file, bufferSize, parse, windowStart, start, st)
    requires st.pos + bufferSize == 0
    ensures var next := ScanRound(file, bufferSize, parse, windowStart, st);
      next.pos + bufferSize < 0 && next.acc == TallyFrom(Reverse(Split(file, '\n')), parse, windowStart, start)
  {
    assert file[0..0] + "" == "";
    TallyBlank(parse, windowStart, st.acc);
  }

  /** A loop that has stopped, or has read back to the file's start, holds the verdict. */
  lemma ScanInvDone(file: string, bufferSize: nat, parse: string -> Option<HistoryEntry>, windowStart: int, start: Tally, st: ScanState)
    requires ScanInv(file, bufferSize, parse, windowStart, start, st)
    requires !start.stopped && (st.acc.stopped || st.pos + bufferSize == 0)
    ensures st.acc == TallyFrom(Reverse(Split(file, '\n')), parse, windowStart, start)
  {
    var cut := st.pos + bufferSize;
    if cut > 0 {
      var seen := Split(file[cut..], '\n');
      assert seen == [st.remainder] + seen[1..];
      StoppedEarly(file, cut, st.remainder, seen[1..], parse, windowStart, start, st.acc);
    }
  }

  /**
   * The backward chunked scan of the history file, with the guard corrected to
   * require a non-empty buffer: it visits exactly the file's lines, newest first.
   */
  method ScanHistory(file: string, parse: string -> Option<HistoryEntry>, now: int) returns (t: Tally)
    ensures t == TallyFrom(Reverse(Split(file, '\n')), parse, now - SessionWindowMs, Start(now))
  {
    var windowStart := now - SessionWindowMs;
    var fileSize := |file|;
    var bufferSize := BufferSize(fileSize);
    var pos := fileSize - bufferSize;
    var remainder := "";
    t := Start(now);
    ScanInvInit(file, parse, windowStart, Start(now));
    while pos >= -(bufferSize as int) && !t.stopped && bufferSize > 0
      invariant ScanInv(file, bufferSize, parse, windowStart, Start(now), ScanState(pos, remainder, t))
      decreases pos + bufferSize
    {
      ghost var st := ScanState(pos, remainder, t);
      var readSize := if pos < 0 then bufferSize + pos else bufferSize;
      var readPos := if pos < 0 then 0 else pos;
      var chunk := file[readPos..readPos + readSize];
      var fullChunk := chunk + remainder;
      var lines := Split(fullChunk, '\n');
      if pos > 0 {
        remainder := lines[0];
        lines := lines[1..];
      } else {
        remainder := "";
      }
      t := VisitChunk(lines, parse, windowStart, t);
      pos := pos - bufferSize;
      assert ScanState(pos, remainder, t) == ScanRound(file, bufferSize, parse, windowStart, st);
      ScanRoundKeeps(file, bufferSize, parse, windowStart, Start(now), st);
      if pos < -(bufferSize as int) {
        return;
      }
    }
    ScanInvDone(file, bufferSize, parse, windowStart, Start(now), ScanState(pos, remainder, t));
  }

  // ---------------------------------------------------------------------------
  // The loop as written, whose guard lacks the non-empty buffer condition.

  /** `pos >= -bufferSize && !stop` */
  predicate AsWrittenGuard(bufferSize: nat, st: ScanState) {
    st.pos >= -(bufferSize as int) && !st.acc.stopped
  }

  /** `k` passes of the loop as written, or fewer if it leaves first. */
  function AsWrittenRounds(k: nat, file: string, parse: string -> Option<HistoryEntry>, windowStart: int, st: ScanState): ScanState
    requires 0 <= st.pos + BufferSize(|file|) <= |file|
    decreases k
  {
    var b := BufferSize(|file|);
    if k == 0 || !AsWrittenGuard(b, st) then st
    else
      var next := ScanRound(file, b, parse, windowStart, st);
      if next.pos < -(b as int) then next
      else AsWrittenRounds(k - 1, file, parse, windowStart, next)
  }

  /**
   * On an empty history file the buffer is empty, `pos` stays at 0 and the
   * guard keeps holding: however many passes are made, the loop is where it
   * started and wants another.
   */
  lemma {:induction false} EmptyHistoryNeverFinishes(parse: string -> Option<HistoryEntry>, now: int, k: nat)
    ensures var st0 := ScanState(0, "", Start(now));
      AsWrittenRounds(k, "", parse, now - SessionWindowMs, st0) == st0 && AsWrittenGuard(BufferSize(0), st0)
    decreases k
  {
    var ws := now - SessionWindowMs;
    var st0 := ScanState(0, "", Start(now));
    if k > 0 {
      var next := ScanRound("", 0, parse, ws, st0);
      assert ""[0..0] + "" == "";
      TallyBlank(parse, ws, Start(now));
      assert next == st0;
      EmptyHistoryNeverFinishes(parse, now, k - 1);
    }
  }
}
