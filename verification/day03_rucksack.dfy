/** Day 3: find the item type shared by the two compartments of each
    rucksack and sum its priority (day-3/src/main.rs). */
module Day03Rucksack {
  import opened Wrappers

  /** `value`: the low five bits of the code point give the position in the
      alphabet, and bit 5 (set for lower case) selects no displacement,
      otherwise 26. The bit masks are written as `% 32` and `/ 32 % 2`. */
  function Value(c: char): (r: int)
    ensures 'a' <= c <= 'z' ==> r == (c as int) - ('a' as int) + 1
    ensures 'A' <= c <= 'Z' ==> r == (c as int) - ('A' as int) + 27
  {
    var ord := c as int;
    var letter := ord % 32;
    var displacement := if (ord / 32) % 2 != 0 then 0 else 26;
    letter + displacement
  }

  /** Priorities separate the letters: lower case gets 1..26, upper case
      27..52, and distinct letters get distinct priorities. */
  lemma ValueRanges(c: char, d: char)
    requires ('a' <= c <= 'z' || 'A' <= c <= 'Z') && ('a' <= d <= 'z' || 'A' <= d <= 'Z')
    ensures 'a' <= c <= 'z' ==> 1 <= Value(c) <= 26
    ensures 'A' <= c <= 'Z' ==> 27 <= Value(c) <= 52
    ensures Value(c) == Value(d) ==> c == d
  {
  }

  /** `Rucksack::half_len`, `left_half` and `right_half`: an even-length line
      split in the middle. The `assert_eq!` on evenness panics otherwise.
      Lengths count characters, which are bytes on the ASCII item letters. */
  function Halves(contents: string): (r: Result<(string, string)>)
    ensures r.Err? <==> |contents| % 2 != 0
    ensures r.Ok? ==> |r.value.0| == |r.value.1| == |contents| / 2
    ensures r.Ok? ==> r.value.0 + r.value.1 == contents
  {
    if |contents| % 2 != 0 then Err("assertion failed: length is even")
    else
      var half := |contents| / 2;
      assert contents[..half] + contents[half..] == contents;
      Ok((contents[..half], contents[half..]))
  }

  /** The needle loop: the first item of the right half that also occurs in
      the left half, if any. */
  function FirstShared(right: string, left: set<char>): (r: Option<char>)
    ensures r.None? <==> forall k :: 0 <= k < |right| ==> right[k] !in left
    ensures r.Some? ==> exists k :: 0 <= k < |right| && right[k] == r.value
                                  && r.value in left
                                  && forall j :: 0 <= j < k ==> right[j] !in left
  {
    if |right| == 0 then None
    else if right[0] in left then
      assert right[0] == right[0];
      Some(right[0])
    else
      var rest := FirstShared(right[1..], left);
      if rest.Some? then
        var k :| 0 <= k < |right[1..]| && right[1..][k] == rest.value && rest.value in left
                 && forall j :: 0 <= j < k ==> right[1..][j] !in left;
        assert right[k + 1] == rest.value;
        assert forall j :: 0 <= j < k + 1 ==> right[j] !in left by {
          forall j | 0 <= j < k + 1 ensures right[j] !in left {
            if j > 0 { assert right[j] == right[1..][j - 1]; }
          }
        }
        rest
      else
        assert forall k :: 0 <= k < |right| ==> right[k] !in left by {
          forall k | 0 <= k < |right| ensures right[k] !in left {
            if k > 0 { assert right[k] == right[1..][k - 1]; }
          }
        }
        None
  }

  /** The priority contributed by one line: it panics on an odd length
      (`half_len`) or when the halves share nothing (`needle.unwrap()`). */
  function LinePriority(line: string): Result<int>
  {
    match Halves(line)
    case Err(e) => Err(e)
    case Ok((left, right)) =>
      match FirstShared(right, set k | 0 <= k < |left| :: left[k])
      case None => Err("called `Option::unwrap()` on a `None` value")
      case Some(c) => Ok(Value(c))
  }

  /** A line succeeds exactly when its length is even and its halves share
      an item, and it then contributes the priority of an item of the right
      half that also occurs in the left half. */
  lemma LinePriorityOk(line: string)
    ensures LinePriority(line).Ok? <==>
              && |line| % 2 == 0
              && exists i, j :: 0 <= i < |line| / 2 <= j < |line| && line[i] == line[j]
    ensures LinePriority(line).Ok? ==>
              exists j :: |line| / 2 <= j < |line| && LinePriority(line).value == Value(line[j])
                          && line[j] in line[..|line| / 2]
  {
    if |line| % 2 == 0 {
      var half := |line| / 2;
      var left, right := line[..half], line[half..];
      var leftItems := set k | 0 <= k < |left| :: left[k];
      assert forall c :: c in leftItems <==> c in left;
      match FirstShared(right, leftItems)
      case None =>
        forall i, j | 0 <= i < half <= j < |line| ensures line[i] != line[j] {
          assert line[i] == left[i] && line[j] == right[j - half];
          assert left[i] in leftItems;
        }
      case Some(c) =>
        var k :| 0 <= k < |right| && right[k] == c && c in leftItems;
        var i :| 0 <= i < |left| && left[i] == c;
        assert line[i] == line[half + k];
    }
  }

  /** The `sum` in `main`: the first failing line makes the whole run fail. */
  function TotalPriority(lines: seq<string>): (r: Result<int>)
  {
    if |lines| == 0 then Ok(0)
    else
      match LinePriority(lines[0])
      case Err(e) => Err(e)
      case Ok(v) =>
        match TotalPriority(lines[1..])
        case Err(e) => Err(e)
        case Ok(rest) => Ok(v + rest)
  }

  /** The sum succeeds exactly when every line does; no lines sum to
      zero. */
  lemma {:induction false} TotalPriorityOk(lines: seq<string>)
    ensures TotalPriority(lines).Ok? <==> forall k :: 0 <= k < |lines| ==> LinePriority(lines[k]).Ok?
    ensures |lines| == 0 ==> TotalPriority(lines) == Ok(0)
  {
    if |lines| > 0 {
      TotalPriorityOk(lines[1..]);
      assert forall k :: 1 <= k < |lines| ==> lines[k] == lines[1..][k - 1];
    }
  }

  /** The sum splits over any division of the lines: the total of `a + b`
      succeeds exactly when both parts do, and is then the sum of their
      totals. */
  lemma {:induction false} TotalPriorityAppend(a: seq<string>, b: seq<string>)
    ensures TotalPriority(a + b).Ok? <==> TotalPriority(a).Ok? && TotalPriority(b).Ok?
    ensures TotalPriority(a + b).Ok? ==> TotalPriority(a + b).value == TotalPriority(a).value + TotalPriority(b).value
  {
    if |a| == 0 {
      assert a + b == b;
    } else {
      assert (a + b)[0] == a[0];
      assert (a + b)[1..] == a[1..] + b;
      TotalPriorityAppend(a[1..], b);
    }
  }

  /** The item types of the worked example's left half. */
  lemma ExampleItems(left: string)
    requires left == "vJrwpWtwJgWr"
    ensures (set k | 0 <= k < |left| :: left[k]) == {'v', 'J', 'r', 'w', 'p', 'W', 't', 'g'}
  {
    var items := set k | 0 <= k < |left| :: left[k];
    forall c | c in items ensures c in {'v', 'J', 'r', 'w', 'p', 'W', 't', 'g'} {
      var k :| 0 <= k < |left| && left[k] == c;
    }
    assert left[0] == 'v' && left[1] == 'J' && left[2] == 'r' && left[3] == 'w';
    assert left[4] == 'p' && left[5] == 'W' && left[6] == 't' && left[9] == 'g';
  }

  /** The first item of the worked example's right half found in its left
      half is its last, 'p'. */
  lemma ExampleNeedle(right: string, items: set<char>)
    requires right == "hcsFMMfFFhFp" && items == {'v', 'J', 'r', 'w', 'p', 'W', 't', 'g'}
    ensures FirstShared(right, items) == Some('p')
  {
    assert forall j :: 0 <= j < 11 ==> right[j] !in items;
    assert right[11] == 'p' && 'p' in items;
    var needle := FirstShared(right, items);
    assert needle.Some?;
    var k :| 0 <= k < |right| && right[k] == needle.value && needle.value in items
             && forall j :: 0 <= j < k ==> right[j] !in items;
    assert k == 11;
  }

  /** The worked example of the puzzle: the shared item of
      "vJrwpWtwJgWrhcsFMMfFFhFp" is 'p', priority 16. */
  lemma ExampleLine()
    ensures LinePriority("vJrwpWtwJgWr" + "hcsFMMfFFhFp") == Ok(16)
  {
    var left, right := "vJrwpWtwJgWr", "hcsFMMfFFhFp";
    var line := left + right;
    assert line[..|line| / 2] == left && line[|line| / 2..] == right;
    ExampleItems(left);
    ExampleNeedle(right, set k | 0 <= k < |left| :: left[k]);
    PriorityOfNeedle(line, 'p');
    assert Value('p') == 16;
  }

  /** A line whose halves split evenly and whose needle is `c` contributes
      the priority of `c`. */
  lemma PriorityOfNeedle(line: string, c: char)
    requires |line| % 2 == 0
    requires var left := line[..|line| / 2];
      FirstShared(line[|line| / 2..], set k | 0 <= k < |left| :: left[k]) == Some(c)
    ensures LinePriority(line) == Ok(Value(c))
  {
  }
}
