/** Day 5: read crate stacks from a drawing, apply crane moves one crate at
    a time, and read the top crates (day-5/src/main.rs). The stack-number
    line and the move lines are parsed by the `inpt` library; here the number
    of stacks and the moves arrive as values. */
module Day05Crates {
  import opened Wrappers

  /** `Move`: lift `quantity` crates from stack `source` onto `destination`
      (both 1-based, as in the input). */
  datatype Move = Move(quantity: int, source: nat, destination: nat)

  /** A character with the Unicode `White_Space` property, what `str::trim`
      strips. */
  predicate IsBlank(c: char)
  {
    ('\U{0009}' <= c <= '\U{000D}') || c == ' ' || c == '\U{0085}' || c == '\U{00A0}' || c == '\U{1680}'
    || ('\U{2000}' <= c <= '\U{200A}') || c == '\U{2028}' || c == '\U{2029}' || c == '\U{202F}'
    || c == '\U{205F}' || c == '\U{3000}'
  }

  /** A regex `\w` character, restricted to ASCII. */
  predicate IsWord(c: char)
  {
    ('a' <= c <= 'z') || ('A' <= c <= 'Z') || ('0' <= c <= '9') || c == '_'
  }

  /** The `Crate` pattern `\[(\w)\]` matched against a whole 3-character chunk. */
  function ParseCrate(chunk: string): (r: Option<char>)
    ensures r.Some? <==> |chunk| == 3 && chunk[0] == '[' && IsWord(chunk[1]) && chunk[2] == ']'
    ensures r.Some? ==> r.value == chunk[1]
  {
    if |chunk| == 3 && chunk[0] == '[' && IsWord(chunk[1]) && chunk[2] == ']' then Some(chunk[1]) else None
  }

  /** Whether a line is long enough to hold the chunk of stack `k`. */
  predicate Reaches(line: string, k: nat)
  {
    4 * k + 3 <= |line|
  }

  /** The three characters of stack `k`, at offsets `4k..4k+3`. */
  function Chunk(line: string, k: nat): string
    requires Reaches(line, k)
  {
    line[4 * k .. 4 * k + 3]
  }

  /** A chunk that `str::trim` reduces to the empty string. */
  predicate BlankChunk(chunk: string)
  {
    forall i :: 0 <= i < |chunk| ==> IsBlank(chunk[i])
  }

  /** A chunk on which `inpt(crate_str).unwrap()` panics: neither blank nor
      a crate. */
  predicate BadChunk(line: string, k: nat)
  {
    Reaches(line, k) && !BlankChunk(Chunk(line, k)) && ParseCrate(Chunk(line, k)).None?
  }

  /** The crate a line holds for stack `k`, if any. */
  function CrateOf(line: string, k: nat): seq<char>
  {
    if Reaches(line, k) && !BlankChunk(Chunk(line, k)) && ParseCrate(Chunk(line, k)).Some?
    then [Chunk(line, k)[1]] else []
  }

  /** How many lines, counted from the bottom, the scan of stack `k` reads
      before it meets a line too short for the chunk. */
  function Scanned(lines: seq<string>, k: nat): (m: nat)
    ensures m <= |lines|
    ensures forall j :: |lines| - m <= j < |lines| ==> Reaches(lines[j], k)
    ensures m < |lines| ==> !Reaches(lines[|lines| - m - 1], k)
  {
    if |lines| == 0 || !Reaches(lines[|lines| - 1], k) then 0
    else 1 + Scanned(lines[..|lines| - 1], k)
  }

  /** Whether some line holds a bad chunk for stack `k`. */
  predicate AnyBad(lines: seq<string>, k: nat)
  {
    exists j :: 0 <= j < |lines| && BadChunk(lines[j], k)
  }

  /** Whether the scan of stack `k` meets a bad chunk before it stops. */
  predicate HitsBadChunk(lines: seq<string>, k: nat)
  {
    AnyBad(lines[|lines| - Scanned(lines, k)..], k)
  }

  lemma AnyBadSnoc(lines: seq<string>, line: string, k: nat)
    ensures AnyBad(lines + [line], k) <==> AnyBad(lines, k) || BadChunk(line, k)
  {
    var all := lines + [line];
    if AnyBad(all, k) {
      var j :| 0 <= j < |all| && BadChunk(all[j], k);
      if j < |lines| {
        assert all[j] == lines[j];
      }
    }
    if AnyBad(lines, k) {
      var j :| 0 <= j < |lines| && BadChunk(lines[j], k);
      assert all[j] == lines[j];
    }
    assert all[|lines|] == line;
  }

  /** Reference reading of stack `k` from lines listed top line first: the
      crates of the lower lines, then the crate of the top line on them. */
  function Stacked(lines: seq<string>, k: nat): seq<char>
  {
    if |lines| == 0 then [] else Stacked(lines[1..], k) + CrateOf(lines[0], k)
  }

  /** A line added at the bottom puts its crate under all the others. */
  lemma {:induction false} StackedSnoc(lines: seq<string>, line: string, k: nat)
    ensures Stacked(lines + [line], k) == CrateOf(line, k) + Stacked(lines, k)
  {
    if |lines| > 0 {
      assert (lines + [line])[1..] == lines[1..] + [line];
      StackedSnoc(lines[1..], line, k);
    }
  }

  /** The lines the scan of stack `k` reads: the bottom line, when it
      reaches the chunk, below those the scan of the lines above it reads. */
  lemma ScannedStep(lines: seq<string>, k: nat)
    requires |lines| > 0 && Reaches(lines[|lines| - 1], k)
    ensures var init := lines[..|lines| - 1];
      && Scanned(lines, k) == Scanned(init, k) + 1
      && lines[|lines| - Scanned(lines, k)..] == init[|init| - Scanned(init, k)..] + [lines[|lines| - 1]]
  {
  }

  /** One stack of the drawing: the chunk at offsets `4k..4k+3` (counted in
      characters, which are bytes on an ASCII drawing) of every crate line,
      bottom line first. A line too short to hold the chunk stops the scan
      (`line.get(..)` is `None`), a blank chunk is skipped, and any other
      chunk must be a crate (`unwrap` panics otherwise). */
  function Column(lines: seq<string>, k: nat): Result<seq<char>>
  {
    if |lines| == 0 then Ok([])
    else
      var line := lines[|lines| - 1];
      if !Reaches(line, k) then Ok([])
      else
        var chunk := Chunk(line, k);
        if BlankChunk(chunk) then Column(lines[..|lines| - 1], k)
        else
          match ParseCrate(chunk)
          case None => Err("called `Result::unwrap()` on an `Err` value")
          case Some(c) =>
            match Column(lines[..|lines| - 1], k)
            case Err(e) => Err(e)
            case Ok(above) => Ok([c] + above)
  }

  /** The scan of stack `k` panics exactly when a bad chunk lies among the
      lines it reads before it stops, and otherwise returns the crates of
      those lines, bottom first. */
  lemma {:induction false} ColumnSpec(lines: seq<string>, k: nat)
    ensures Column(lines, k).Err? <==> HitsBadChunk(lines, k)
    ensures Column(lines, k).Ok? ==> Column(lines, k).value == Stacked(lines[|lines| - Scanned(lines, k)..], k)
  {
    if |lines| > 0 {
      var init := lines[..|lines| - 1];
      if Reaches(lines[|lines| - 1], k) {
        ScannedStep(lines, k);
        AnyBadSnoc(init[|init| - Scanned(init, k)..], lines[|lines| - 1], k);
        StackedSnoc(init[|init| - Scanned(init, k)..], lines[|lines| - 1], k);
        ColumnSpec(init, k);
      } else {
        assert lines[|lines|..] == [];
      }
    }
  }

  /** The stacks built by `main`: index 0 is an empty pad so that stack
      numbers are 1-based, followed by `size` columns. */
  function ReadStacks(lines: seq<string>, size: nat): (r: Result<seq<seq<char>>>)
    ensures r.Ok? ==> |r.value| == size + 1 && r.value[0] == []
    ensures r.Ok? ==> forall k :: 0 <= k < size ==> Column(lines, k) == Ok(r.value[k + 1])
    ensures r.Err? <==> exists k :: 0 <= k < size && Column(lines, k).Err?
  {
    if size == 0 then Ok([[]])
    else
      var prev := ReadStacks(lines, size - 1);
      var col := Column(lines, size - 1);
      if prev.Err? then
        var k :| 0 <= k < size - 1 && Column(lines, k).Err?;
        assert exists k' :: 0 <= k' < size && Column(lines, k').Err?;
        prev
      else if col.Err? then
        assert 0 <= size - 1 < size && Column(lines, size - 1).Err?;
        Err(col.reason)
      else Ok(prev.value + [col.value])
  }

  /** A bottom line too short for stack 2 ends that stack's scan at once,
      so the chunk "XYZ" above it, which is not a crate, is never read. */
  lemma ShortLineHides()
    ensures ReadStacks(["[a] XYZ", "[b]"], 2) == Ok([[], "ba", []])
  {
    var lines := ["[a] XYZ", "[b]"];
    var top := lines[..1];
    assert top == ["[a] XYZ"] && top[..0] == [];
    assert Column(lines, 1) == Ok([]);
    var a, b := Chunk(lines[0], 0), Chunk(lines[1], 0);
    assert a == "[a]" && b == "[b]";
    assert !BlankChunk(a) by { assert !IsBlank(a[0]); }
    assert !BlankChunk(b) by { assert !IsBlank(b[0]); }
    assert ParseCrate(a) == Some('a') && ParseCrate(b) == Some('b');
    assert Column(top[..0], 0) == Ok([]);
    assert top[0] == lines[0] && lines[..1] == top;
    assert Column(top, 0) == Ok(['a'] + []);
    assert Reaches(lines[|lines| - 1], 0) && Chunk(lines[|lines| - 1], 0) == b;
    assert Column(lines, 0) == Ok(['b'] + (['a'] + []));
    assert ['b'] + (['a'] + []) == "ba";
    assert ReadStacks(lines, 0) == Ok([[]]);
    assert ReadStacks(lines, 1) == Ok([[]] + ["ba"]);
    assert ReadStacks(lines, 2) == Ok([[]] + ["ba"] + [[]]);
    assert [[]] + ["ba"] + [[]] == [[], "ba", []];
  }

  /** Reading the drawing panics exactly when, for some stack, a chunk that
      is neither blank nor a crate lies among the lines its scan reads
      before stopping at a line too short for the chunk. */
  lemma ReadStacksFails(lines: seq<string>, size: nat)
    ensures ReadStacks(lines, size).Err? <==> exists k :: 0 <= k < size && HitsBadChunk(lines, k)
  {
    if ReadStacks(lines, size).Err? {
      var k :| 0 <= k < size && Column(lines, k).Err?;
      ColumnSpec(lines, k);
    }
    if exists k :: 0 <= k < size && HitsBadChunk(lines, k) {
      var k :| 0 <= k < size && HitsBadChunk(lines, k);
      ColumnSpec(lines, k);
    }
  }

  // ----- Drawing stacks, the inverse of reading them -----

  /** The drawing of one stack at one level: `[c]`, or three spaces above
      the top crate. */
  function Cell(stack: seq<char>, level: nat): string
  {
    if level < |stack| then ['[', stack[level], ']'] else "   "
  }

  /** One line of a drawing: the cells of all stacks, separated by a space. */
  function Row(stacks: seq<seq<char>>, level: nat): (r: string)
    ensures |stacks| > 0 ==> |r| == 4 * |stacks| - 1
  {
    if |stacks| == 0 then ""
    else if |stacks| == 1 then Cell(stacks[0], level)
    else Cell(stacks[0], level) + " " + Row(stacks[1..], level)
  }

  /** The lines for levels `hi - 1` down to `lo`, top line first. */
  function Levels(stacks: seq<seq<char>>, lo: nat, hi: nat): (r: seq<string>)
    requires lo <= hi
    ensures |r| == hi - lo
  {
    seq(hi - lo, i requires 0 <= i < hi - lo => Row(stacks, hi - 1 - i))
  }

  lemma {:induction false} RowChunk(stacks: seq<seq<char>>, level: nat, k: nat)
    requires k < |stacks|
    ensures Row(stacks, level)[4 * k .. 4 * k + 3] == Cell(stacks[k], level)
  {
    if k > 0 {
      RowChunk(stacks[1..], level, k - 1);
      var head, tail := Cell(stacks[0], level) + " ", Row(stacks[1..], level);
      assert |head| == 4;
      assert Row(stacks, level) == head + tail;
      SliceAfter(head, tail, 4 * (k - 1));
    }
  }

  /** Three characters of `tail` cut from behind a prefix. */
  lemma SliceAfter(head: string, tail: string, i: nat)
    requires i + 3 <= |tail|
    ensures (head + tail)[|head| + i .. |head| + i + 3] == tail[i .. i + 3]
  {
  }

  lemma LevelsSplit(stacks: seq<seq<char>>, lo: nat, hi: nat)
    requires lo < hi
    ensures var lines := Levels(stacks, lo, hi);
      lines[..|lines| - 1] == Levels(stacks, lo + 1, hi) && lines[|lines| - 1] == Row(stacks, lo)
  {
  }

  lemma {:induction false} ColumnOfLevels(stacks: seq<seq<char>>, k: nat, lo: nat, hi: nat)
    requires k < |stacks| && lo <= hi && |stacks[k]| <= hi
    requires forall i :: 0 <= i < |stacks[k]| ==> IsWord(stacks[k][i])
    ensures lo <= |stacks[k]| ==> Column(Levels(stacks, lo, hi), k) == Ok(stacks[k][lo..])
    ensures lo > |stacks[k]| ==> Column(Levels(stacks, lo, hi), k) == Ok([])
    decreases hi - lo
  {
    if lo == hi {
      if lo <= |stacks[k]| {
        assert stacks[k][lo..] == [];
      }
    } else {
      ColumnOfLevels(stacks, k, lo + 1, hi);
      if lo < |stacks[k]| {
        CrateLevel(stacks, k, lo, hi);
      } else {
        BlankLevel(stacks, k, lo, hi);
        assert lo == |stacks[k]| ==> stacks[k][lo..] == [];
      }
    }
  }

  /** The bottom line of the drawing and the lines above it. */
  lemma LevelsBottom(stacks: seq<seq<char>>, k: nat, lo: nat, hi: nat)
    requires k < |stacks| && lo < hi
    ensures var lines := Levels(stacks, lo, hi);
      && lines[..|lines| - 1] == Levels(stacks, lo + 1, hi)
      && 4 * k + 3 <= |lines[|lines| - 1]|
      && lines[|lines| - 1][4 * k .. 4 * k + 3] == Cell(stacks[k], lo)
  {
    LevelsSplit(stacks, lo, hi);
    RowChunk(stacks, lo, k);
  }

  /** A level holding a crate of stack `k` puts it under the ones above. */
  lemma CrateLevel(stacks: seq<seq<char>>, k: nat, lo: nat, hi: nat)
    requires k < |stacks| && lo < hi && lo < |stacks[k]| && IsWord(stacks[k][lo])
    requires Column(Levels(stacks, lo + 1, hi), k) == Ok(stacks[k][lo + 1..])
    ensures Column(Levels(stacks, lo, hi), k) == Ok(stacks[k][lo..])
  {
    var lines := Levels(stacks, lo, hi);
    var c := stacks[k][lo];
    LevelsBottom(stacks, k, lo, hi);
    ColumnCrate(lines, k, c);
    assert stacks[k][lo..] == [c] + stacks[k][lo + 1..];
  }

  /** A level above the top of stack `k` adds nothing to it. */
  lemma BlankLevel(stacks: seq<seq<char>>, k: nat, lo: nat, hi: nat)
    requires k < |stacks| && lo < hi && lo >= |stacks[k]|
    ensures Column(Levels(stacks, lo, hi), k) == Column(Levels(stacks, lo + 1, hi), k)
  {
    LevelsBottom(stacks, k, lo, hi);
    ColumnBlank(Levels(stacks, lo, hi), k);
  }

  /** A crate in the bottom line goes under the crates read above it. */
  lemma ColumnCrate(lines: seq<string>, k: nat, c: char)
    requires |lines| > 0 && IsWord(c)
    requires var line := lines[|lines| - 1];
      4 * k + 3 <= |line| && line[4 * k .. 4 * k + 3] == ['[', c, ']']
    ensures var above := Column(lines[..|lines| - 1], k);
      Column(lines, k) == if above.Ok? then Ok([c] + above.value) else above
  {
    var chunk := lines[|lines| - 1][4 * k .. 4 * k + 3];
    assert !IsBlank(chunk[0]);
  }

  /** A blank chunk in the bottom line is skipped. */
  lemma ColumnBlank(lines: seq<string>, k: nat)
    requires |lines| > 0
    requires var line := lines[|lines| - 1];
      4 * k + 3 <= |line| && line[4 * k .. 4 * k + 3] == "   "
    ensures Column(lines, k) == Column(lines[..|lines| - 1], k)
  {
  }

  /** Reading a drawing back: every stack of word characters is recovered,
      bottom crate first, from the drawing of any height at least its own. */
  lemma ReadStacksOfDrawing(stacks: seq<seq<char>>, height: nat)
    requires |stacks| > 0
    requires forall k :: 0 <= k < |stacks| ==> |stacks[k]| <= height
    requires forall k, i :: 0 <= k < |stacks| && 0 <= i < |stacks[k]| ==> IsWord(stacks[k][i])
    ensures ReadStacks(Levels(stacks, 0, height), |stacks|) == Ok([[]] + stacks)
  {
    forall k | 0 <= k < |stacks|
      ensures Column(Levels(stacks, 0, height), k) == Ok(stacks[k])
    {
      ColumnOfLevels(stacks, k, 0, height);
      assert stacks[k][0..] == stacks[k];
    }
    var r := ReadStacks(Levels(stacks, 0, height), |stacks|);
    assert r.Ok?;
    assert r.value == [[]] + stacks;
  }

  // ----- Moves -----

  /** One iteration of the move loop: `stacks[source].pop().unwrap()` then
      `stacks[destination].push(c)`; an index out of range or an empty source
      panics. */
  function MoveOne(stacks: seq<seq<char>>, source: nat, destination: nat): (r: Result<seq<seq<char>>>)
    ensures r.Ok? <==> source < |stacks| && destination < |stacks| && |stacks[source]| > 0
  {
    if source >= |stacks| || |stacks[source]| == 0 || destination >= |stacks| then
      Err("index out of bounds or empty stack")
    else
      var s := stacks[source];
      var c := s[|s| - 1];
      var popped := stacks[source := s[..|s| - 1]];
      Ok(popped[destination := popped[destination] + [c]])
  }

  /** The number of iterations of `for _ in 0..quantity`: none when the
      quantity is not positive. */
  function Quantity(m: Move): nat
  {
    if m.quantity < 0 then 0 else m.quantity
  }

  /** Whether a move runs to the end without a panic: it moves nothing, or
      both stacks exist and the source holds enough crates. A stack moved
      onto itself gets every crate back at once, so it only needs one. */
  predicate MoveFits(stacks: seq<seq<char>>, m: Move)
  {
    Quantity(m) == 0 ||
    (m.source < |stacks| && m.destination < |stacks| &&
     if m.source == m.destination then |stacks[m.source]| > 0 else Quantity(m) <= |stacks[m.source]|)
  }

  /** Reference result of a move that fits: the top crates of the source,
      in reverse order, on top of the destination. */
  function Moved(stacks: seq<seq<char>>, m: Move): seq<seq<char>>
    requires MoveFits(stacks, m)
  {
    var q := Quantity(m);
    if q == 0 || m.source == m.destination then stacks
    else
      var s := stacks[m.source];
      stacks[m.source := s[..|s| - q]][m.destination := stacks[m.destination] + Reverse(s[|s| - q..])]
  }

  /** One move: `for _ in 0..quantity` around `MoveOne`. It panics exactly
      when the move does not fit, and otherwise gives the reference result,
      with as many stacks and crates as before. */
  function ApplyMove(stacks: seq<seq<char>>, m: Move): (r: Result<seq<seq<char>>>)
    ensures r.Ok? <==> MoveFits(stacks, m)
    ensures r.Ok? ==> r.value == Moved(stacks, m)
    ensures r.Ok? ==> |r.value| == |stacks| && TotalCrates(r.value) == TotalCrates(stacks)
  {
    var q := Quantity(m);
    MoveRepeatConserves(stacks, m.source, m.destination, q);
    if q > 0 && m.source < |stacks| && m.destination < |stacks| then
      if m.source == m.destination then
        MoveOntoItself(stacks, m.source, q);
        MoveRepeat(stacks, m.source, m.destination, q)
      else
        MoveRepeatSpec(stacks, m.source, m.destination, q);
        MoveRepeat(stacks, m.source, m.destination, q)
    else
      MoveRepeat(stacks, m.source, m.destination, q)
  }

  function MoveRepeat(stacks: seq<seq<char>>, source: nat, destination: nat, n: nat): Result<seq<seq<char>>>
    decreases n
  {
    if n == 0 then Ok(stacks)
    else
      match MoveOne(stacks, source, destination)
      case Err(e) => Err(e)
      case Ok(next) => MoveRepeat(next, source, destination, n - 1)
  }

  function Reverse<T>(s: seq<T>): (r: seq<T>)
    ensures |r| == |s|
    ensures forall i :: 0 <= i < |s| ==> r[i] == s[|s| - 1 - i]
  {
    if |s| == 0 then [] else [s[|s| - 1]] + Reverse(s[..|s| - 1])
  }

  /** A move of `n` crates between two distinct stacks takes the top `n`
      crates of the source and puts them on the destination in reverse order;
      every other stack is untouched. It panics exactly when an index is out
      of range or the source holds fewer than `n` crates. */
  lemma {:induction false} MoveRepeatSpec(stacks: seq<seq<char>>, source: nat, destination: nat, n: nat)
    requires source < |stacks| && destination < |stacks| && source != destination
    ensures var r := MoveRepeat(stacks, source, destination, n);
      var s := stacks[source];
      && (r.Ok? <==> n <= |s|)
      && (r.Ok? ==> r.value == stacks[source := s[..|s| - n]]
                                     [destination := stacks[destination] + Reverse(s[|s| - n..])])
    decreases n
  {
    var s := stacks[source];
    if n == 0 {
      assert s[..|s|] == s && s[|s|..] == [] && Reverse(s[|s|..]) == [];
      assert stacks[destination] + [] == stacks[destination];
    } else if |s| > 0 {
      var next := MoveOne(stacks, source, destination).value;
      MoveRepeatSpec(next, source, destination, n - 1);
      var s' := s[..|s| - 1];
      assert next[source] == s';
      if n <= |s| {
        var c := s[|s| - 1];
        var d := stacks[destination];
        assert next == stacks[source := s'][destination := d + [c]];
        assert s'[..|s'| - (n - 1)] == s[..|s| - n];
        var tail := Reverse(s'[|s'| - (n - 1)..]);
        assert Reverse(s[|s| - n..]) == [c] + tail by {
          assert s[|s| - n..][..n - 1] == s'[|s'| - (n - 1)..];
        }
        assert (d + [c]) + tail == d + ([c] + tail);
        assert next[source := s[..|s| - n]][destination := (d + [c]) + tail]
            == stacks[source := s[..|s| - n]][destination := d + Reverse(s[|s| - n..])];
      }
    }
  }

  /** Moving a stack onto itself pops a crate and pushes it straight back,
      so it changes nothing; it panics only when the stack is empty and
      there is something to move. */
  lemma {:induction false} MoveOntoItself(stacks: seq<seq<char>>, i: nat, n: nat)
    requires i < |stacks|
    ensures MoveRepeat(stacks, i, i, n).Ok? <==> n == 0 || |stacks[i]| > 0
    ensures MoveRepeat(stacks, i, i, n).Ok? ==> MoveRepeat(stacks, i, i, n).value == stacks
  {
    if n > 0 && |stacks[i]| > 0 {
      var s := stacks[i];
      var popped := stacks[i := s[..|s| - 1]];
      assert popped[i] + [s[|s| - 1]] == s;
      assert popped[i := s] == stacks;
      MoveOntoItself(stacks, i, n - 1);
    }
  }

  function TotalCrates(stacks: seq<seq<char>>): nat
  {
    if |stacks| == 0 then 0 else TotalCrates(stacks[..|stacks| - 1]) + |stacks[|stacks| - 1]|
  }

  lemma {:induction false} TotalCratesUpdate(stacks: seq<seq<char>>, i: nat, x: seq<char>)
    requires i < |stacks|
    ensures TotalCrates(stacks[i := x]) + |stacks[i]| == TotalCrates(stacks) + |x|
  {
    var last := |stacks| - 1;
    if i < last {
      TotalCratesUpdate(stacks[..last], i, x);
      assert stacks[i := x][..last] == stacks[..last][i := x];
    } else {
      assert stacks[i := x][..last] == stacks[..last];
    }
  }

  /** Moves never create or destroy crates. */
  lemma {:induction false} MoveRepeatConserves(stacks: seq<seq<char>>, source: nat, destination: nat, n: nat)
    ensures var r := MoveRepeat(stacks, source, destination, n);
      r.Ok? ==> TotalCrates(r.value) == TotalCrates(stacks) && |r.value| == |stacks|
    decreases n
  {
    if n > 0 {
      var r1 := MoveOne(stacks, source, destination);
      if r1.Ok? {
        var s := stacks[source];
        var popped := stacks[source := s[..|s| - 1]];
        TotalCratesUpdate(stacks, source, s[..|s| - 1]);
        TotalCratesUpdate(popped, destination, popped[destination] + [s[|s| - 1]]);
        MoveRepeatConserves(r1.value, source, destination, n - 1);
      }
    }
  }

  /** The move loop of `main`, applying every move in order; it keeps the
      number of stacks and the number of crates. */
  function ApplyMoves(stacks: seq<seq<char>>, moves: seq<Move>): (r: Result<seq<seq<char>>>)
    ensures r.Ok? ==> |r.value| == |stacks| && TotalCrates(r.value) == TotalCrates(stacks)
    decreases |moves|
  {
    if |moves| == 0 then Ok(stacks)
    else
      match ApplyMove(stacks, moves[0])
      case Err(e) => Err(e)
      case Ok(next) => ApplyMoves(next, moves[1..])
  }

  /** Applying two runs of moves is applying the first, then the second to
      its result. */
  lemma {:induction false} ApplyMovesAppend(stacks: seq<seq<char>>, a: seq<Move>, b: seq<Move>)
    ensures ApplyMoves(stacks, a + b) ==
      match ApplyMoves(stacks, a)
      case Ok(next) => ApplyMoves(next, b)
      case Err(e) => Err(e)
    decreases |a|
  {
    if |a| == 0 {
      assert a + b == b;
    } else {
      assert (a + b)[0] == a[0] && (a + b)[1..] == a[1..] + b;
      var first := ApplyMove(stacks, a[0]);
      if first.Ok? {
        ApplyMovesAppend(first.value, a[1..], b);
      }
    }
  }

  /** The move loop panics exactly when some move does not fit the stacks
      left by the moves before it. */
  lemma {:induction false} ApplyMovesFails(stacks: seq<seq<char>>, moves: seq<Move>)
    ensures ApplyMoves(stacks, moves).Err? <==>
      exists j :: 0 <= j < |moves| && ApplyMoves(stacks, moves[..j]).Ok? &&
        !MoveFits(ApplyMoves(stacks, moves[..j]).value, moves[j])
    decreases |moves|
  {
    if |moves| > 0 {
      assert moves[..0] == [];
      var first := ApplyMove(stacks, moves[0]);
      if first.Ok? {
        var next := first.value;
        var rest := moves[1..];
        ApplyMovesFails(next, rest);
        forall j | 0 <= j < |rest|
          ensures ApplyMoves(stacks, moves[..j + 1]) == ApplyMoves(next, rest[..j])
        {
          assert moves[..j + 1][0] == moves[0] && moves[..j + 1][1..] == rest[..j];
        }
        if ApplyMoves(stacks, moves).Err? {
          var j :| 0 <= j < |rest| && ApplyMoves(next, rest[..j]).Ok? &&
            !MoveFits(ApplyMoves(next, rest[..j]).value, rest[j]);
          assert ApplyMoves(stacks, moves[..j + 1]).Ok? && moves[j + 1] == rest[j];
        }
        if exists j :: 0 <= j < |moves| && ApplyMoves(stacks, moves[..j]).Ok? &&
            !MoveFits(ApplyMoves(stacks, moves[..j]).value, moves[j]) {
          var j :| 0 <= j < |moves| && ApplyMoves(stacks, moves[..j]).Ok? &&
            !MoveFits(ApplyMoves(stacks, moves[..j]).value, moves[j]);
          assert j != 0;
          assert ApplyMoves(next, rest[..j - 1]).Ok? && rest[j - 1] == moves[j];
        }
      } else {
        assert ApplyMoves(stacks, moves[..0]) == Ok(stacks);
      }
    }
  }

  /** `VecExt::last`: the element at `len - 1`, which must exist. */
  function Last<T>(s: seq<T>): (r: T)
    requires |s| > 0
    ensures s == s[..|s| - 1] + [r]
    ensures r in s
  {
    s[|s| - 1]
  }

  /** `last` after `push` gives back the pushed element, whatever came before. */
  lemma LastPush<T>(s: seq<T>, x: T)
    ensures Last(s + [x]) == x
  {
  }

  /** The message: the top crate of each stack after the padding stack, in
      stack order; an empty stack panics in `last`. */
  function Message(stacks: seq<seq<char>>): (r: Result<string>)
    ensures r.Ok? <==> forall k :: 1 <= k < |stacks| ==> |stacks[k]| > 0
    ensures r.Ok? ==> |r.value| == if |stacks| == 0 then 0 else |stacks| - 1
    ensures r.Ok? ==> forall k :: 1 <= k < |stacks| ==> r.value[k - 1] == stacks[k][|stacks[k]| - 1]
  {
    if |stacks| <= 1 then Ok([])
    else
      var last := stacks[|stacks| - 1];
      match Message(stacks[..|stacks| - 1])
      case Err(e) => Err(e)
      case Ok(prefix) =>
        if |last| == 0 then Err("index out of bounds") else Ok(prefix + [Last(last)])
  }

  lemma ExampleMove1()
    ensures MoveRepeat([[], "ZN", "MCD", "P"], 2, 1, 1) == Ok([[], "ZND", "MC", "P"])
  {
    var s0: seq<seq<char>> := [[], "ZN", "MCD", "P"];
    MoveRepeatSpec(s0, 2, 1, 1);
    assert Reverse("MCD"[2..]) == "D" by { assert "MCD"[2..] == "D"; }
    assert "MCD"[..2] == "MC" && "ZN" + "D" == "ZND";
    assert s0[2 := "MC"][1 := "ZND"] == [[], "ZND", "MC", "P"];
  }

  lemma ExampleMove2()
    ensures MoveRepeat([[], "ZND", "MC", "P"], 1, 3, 3) == Ok([[], "", "MC", "PDNZ"])
  {
    var s1: seq<seq<char>> := [[], "ZND", "MC", "P"];
    MoveRepeatSpec(s1, 1, 3, 3);
    assert Reverse("ZND"[0..]) == "DNZ" by {
      assert "ZND"[0..] == "ZND";
      assert "ZND"[..2] == "ZN" && "ZN"[..1] == "Z" && "Z"[..0] == [];
    }
    assert "ZND"[..0] == "" && "P" + "DNZ" == "PDNZ";
    assert s1[1 := ""][3 := "PDNZ"] == [[], "", "MC", "PDNZ"];
  }

  lemma ExampleMove3()
    ensures MoveRepeat([[], "", "MC", "PDNZ"], 2, 1, 2) == Ok([[], "CM", "", "PDNZ"])
  {
    var s2: seq<seq<char>> := [[], "", "MC", "PDNZ"];
    MoveRepeatSpec(s2, 2, 1, 2);
    assert Reverse("MC"[0..]) == "CM" by {
      assert "MC"[0..] == "MC" && "MC"[..1] == "M" && "M"[..0] == [];
    }
    assert "MC"[..0] == "" && "" + "CM" == "CM";
    assert s2[2 := ""][1 := "CM"] == [[], "CM", "", "PDNZ"];
  }

  lemma ExampleMove4()
    ensures MoveRepeat([[], "CM", "", "PDNZ"], 1, 2, 1) == Ok([[], "C", "M", "PDNZ"])
  {
    var s3: seq<seq<char>> := [[], "CM", "", "PDNZ"];
    MoveRepeatSpec(s3, 1, 2, 1);
    assert Reverse("CM"[1..]) == "M" by { assert "CM"[1..] == "M"; }
    assert "CM"[..1] == "C" && "" + "M" == "M";
    assert s3[1 := "C"][2 := "M"] == [[], "C", "M", "PDNZ"];
  }

  /** The four example moves, from stacks `ZN`, `MCD`, `P`. */
  lemma ExampleRun()
    ensures ApplyMoves([[], "ZN", "MCD", "P"], [Move(1, 2, 1), Move(3, 1, 3), Move(2, 2, 1), Move(1, 1, 2)])
         == Ok([[], "C", "M", "PDNZ"])
  {
    var s0: seq<seq<char>> := [[], "ZN", "MCD", "P"];
    var moves := [Move(1, 2, 1), Move(3, 1, 3), Move(2, 2, 1), Move(1, 1, 2)];
    var s1: seq<seq<char>> := [[], "ZND", "MC", "P"];
    var s2: seq<seq<char>> := [[], "", "MC", "PDNZ"];
    var s3: seq<seq<char>> := [[], "CM", "", "PDNZ"];
    var s4: seq<seq<char>> := [[], "C", "M", "PDNZ"];
    assert ApplyMove(s0, moves[0]) == Ok(s1) by { ExampleMove1(); }
    assert ApplyMove(s1, moves[1]) == Ok(s2) by { ExampleMove2(); }
    assert ApplyMove(s2, moves[2]) == Ok(s3) by { ExampleMove3(); }
    assert ApplyMove(s3, moves[3]) == Ok(s4) by { ExampleMove4(); }
    assert ApplyMoves(s3, moves[3..]) == Ok(s4) by {
      assert moves[3..][1..] == [];
    }
    assert ApplyMoves(s2, moves[2..]) == Ok(s4) by {
      assert moves[2..][1..] == moves[3..];
    }
    assert ApplyMoves(s1, moves[1..]) == Ok(s4) by {
      assert moves[1..][1..] == moves[2..];
    }
  }

  /** The tops of the example's final stacks. */
  lemma ExampleMessage()
    ensures Message([[], "C", "M", "PDNZ"]) == Ok("CMZ")
  {
    var s4: seq<seq<char>> := [[], "C", "M", "PDNZ"];
    assert |s4[1]| == 1 && |s4[2]| == 1 && |s4[3]| == 4;
    var r := Message(s4);
    assert r.Ok? && |r.value| == 3;
    assert r.value[0] == s4[1][0] == 'C' && r.value[1] == s4[2][0] == 'M' && r.value[2] == s4[3][3] == 'Z';
    assert r.value == "CMZ";
  }

  /** The puzzle's worked example: stacks `ZN`, `MCD`, `P`, after the four
      example moves, read `CMZ`. */
  lemma Example()
    ensures var moves := [Move(1, 2, 1), Move(3, 1, 3), Move(2, 2, 1), Move(1, 1, 2)];
      var r := ApplyMoves([[], "ZN", "MCD", "P"], moves);
      r.Ok? && Message(r.value) == Ok("CMZ")
  {
    ExampleRun();
    ExampleMessage();
  }
}
