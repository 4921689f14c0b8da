/** Day 13: packets of nested lists of integers, their comparison, the
    hand-written parser and the printer (day-13/src/main.rs). Integers are
    unbounded rather than `i64`; sorting the packets is left out. */
module Day13Packets {
  import opened Wrappers

  datatype Data = List(items: seq<Data>) | Int(v: int)

  // ---------------------------------------------------------------------------
  // Comparison.

  /** Sizes for termination; a list counts one more than its items. */
  function Size(d: Data): nat
  {
    match d
    case Int(_) => 1
    case List(xs) => 1 + ItemsSize(xs)
  }

  function ItemsSize(xs: seq<Data>): (n: nat)
    ensures n >= 1
  {
    if |xs| == 0 then 1 else Size(xs[0]) + ItemsSize(xs[1..])
  }

  /** `compare`: `Some(true)` when the pair is in the right order,
      `Some(false)` when it is not, `None` when undecided. An integer met by
      a list is first wrapped in a one-element list. */
  function Compare(left: Data, right: Data): Option<bool>
    decreases Size(left) + Size(right), 1
  {
    match (left, right)
    case (Int(a), Int(b)) => if a < b then Some(true) else if a > b then Some(false) else None
    case (List(a), List(b)) => CompareItems(a, b)
    case (Int(a), List(b)) => SingletonSize(Int(a)); CompareItems([Int(a)], b)
    case (List(a), Int(b)) => SingletonSize(Int(b)); CompareItems(a, [Int(b)])
  }

  lemma SingletonSize(d: Data)
    ensures ItemsSize([d]) == Size(d) + 1
  {
    assert [d][1..] == [];
  }

  /** The loop over both lists: the first decided element pair decides;
      otherwise the shorter list is in the right order. */
  function CompareItems(a: seq<Data>, b: seq<Data>): Option<bool>
    decreases ItemsSize(a) + ItemsSize(b), 0
  {
    if |a| == 0 && |b| == 0 then None
    else if |a| == 0 then Some(true)
    else if |b| == 0 then Some(false)
    else
      match Compare(a[0], b[0])
      case Some(r) => Some(r)
      case None => CompareItems(a[1..], b[1..])
  }

  /** An integer compared with a list behaves as the one-element list
      holding it, on either side. */
  lemma IntPromotion(a: int, b: seq<Data>)
    ensures Compare(Int(a), List(b)) == Compare(List([Int(a)]), List(b))
    ensures Compare(List(b), Int(a)) == Compare(List(b), List([Int(a)]))
  {
  }

  /** A packet never decides against itself. */
  lemma {:induction false} CompareSelf(d: Data)
    ensures Compare(d, d) == None
    decreases Size(d), 1
  {
    match d
    case Int(_) =>
    case List(xs) => CompareItemsSelf(xs);
  }

  lemma {:induction false} CompareItemsSelf(xs: seq<Data>)
    ensures CompareItems(xs, xs) == None
    decreases ItemsSize(xs), 0
  {
    if |xs| > 0 {
      CompareSelf(xs[0]);
      CompareItemsSelf(xs[1..]);
    }
  }

  function Flip(o: Option<bool>): Option<bool>
  {
    match o
    case Some(b) => Some(!b)
    case None => None
  }

  /** Swapping the packets flips a decision and keeps an undecided pair
      undecided. */
  lemma {:induction false} CompareSwap(a: Data, b: Data)
    ensures Compare(b, a) == Flip(Compare(a, b))
    decreases Size(a) + Size(b), 1
  {
    match (a, b)
    case (Int(_), Int(_)) =>
    case (List(x), List(y)) => CompareItemsSwap(x, y);
    case (Int(x), List(y)) => SingletonSize(Int(x)); CompareItemsSwap([Int(x)], y);
    case (List(x), Int(y)) => SingletonSize(Int(y)); CompareItemsSwap(x, [Int(y)]);
  }

  lemma {:induction false} CompareItemsSwap(a: seq<Data>, b: seq<Data>)
    ensures CompareItems(b, a) == Flip(CompareItems(a, b))
    decreases ItemsSize(a) + ItemsSize(b), 0
  {
    if |a| > 0 && |b| > 0 {
      CompareSwap(a[0], b[0]);
      CompareItemsSwap(a[1..], b[1..]);
    }
  }

  /** Antisymmetry: `compare(a, b) == Some(t)` exactly when
      `compare(b, a) == Some(!t)`. */
  lemma CompareAntisymmetric(a: Data, b: Data, t: bool)
    ensures Compare(a, b) == Some(t) <==> Compare(b, a) == Some(!t)
  {
    CompareSwap(a, b);
  }

  /** A proper prefix is in the right order. */
  lemma {:induction false} PrefixFirst(a: seq<Data>, b: seq<Data>)
    requires |a| < |b| && a == b[..|a|]
    ensures CompareItems(a, b) == Some(true)
    decreases |a|
  {
    if |a| > 0 {
      CompareSelf(a[0]);
      assert a[0] == b[0];
      assert a[1..] == b[1..][..|a| - 1];
      PrefixFirst(a[1..], b[1..]);
    }
  }

  /** Lists are compared lexicographically: after a common prefix, the
      first decided pair decides. */
  lemma {:induction false} CommonPrefix(p: seq<Data>, a: seq<Data>, b: seq<Data>)
    ensures CompareItems(p + a, p + b) == CompareItems(a, b)
    decreases |p|
  {
    if |p| > 0 {
      var x, y := p + a, p + b;
      CompareSelf(p[0]);
      assert x[0] == p[0] && y[0] == p[0];
      assert x[1..] == p[1..] + a && y[1..] == p[1..] + b;
      CommonPrefix(p[1..], a, b);
      assert CompareItems(x, y) == CompareItems(x[1..], y[1..]);
    } else {
      assert p + a == a && p + b == b;
    }
  }

  // ---------------------------------------------------------------------------
  // Decimal numerals.

  predicate IsDigit(c: char)
  {
    '0' <= c <= '9'
  }

  function DigitValue(c: char): nat
    requires IsDigit(c)
  {
    c as int - '0' as int
  }

  function DigitChar(d: nat): (c: char)
    requires d < 10
    ensures IsDigit(c) && DigitValue(c) == d
  {
    ('0' as int + d) as char
  }

  /** The value of a string of digits, most significant first, as
      `str::parse` reads it. */
  function DecimalValue(ds: seq<char>): nat
    requires forall i :: 0 <= i < |ds| ==> IsDigit(ds[i])
  {
    if |ds| == 0 then 0 else DecimalValue(ds[..|ds| - 1]) * 10 + DigitValue(ds[|ds| - 1])
  }

  /** `{}` on a non-negative integer. */
  function NatToString(n: nat): (s: seq<char>)
    ensures |s| >= 1
  {
    if n < 10 then [DigitChar(n)] else NatToString(n / 10) + [DigitChar(n % 10)]
  }

  /** Reading back a printed number gives the number. */
  lemma {:induction false} NatToStringRoundTrip(n: nat)
    ensures var s := NatToString(n);
      (forall i :: 0 <= i < |s| ==> IsDigit(s[i])) && DecimalValue(s) == n
  {
    if n >= 10 {
      var s := NatToString(n);
      assert s[..|s| - 1] == NatToString(n / 10);
      NatToStringRoundTrip(n / 10);
    }
  }

  /** `{}` on any integer: a minus sign before negative values. */
  function IntToString(i: int): seq<char>
  {
    if i < 0 then ['-'] + NatToString(-i) else NatToString(i)
  }

  // ---------------------------------------------------------------------------
  // Printing.

  /** `Display for Data`: integers in decimal, lists in brackets with the
      items separated by commas and no spaces. */
  function Print(d: Data): seq<char>
    decreases Size(d), 1
  {
    match d
    case Int(i) => IntToString(i)
    case List(xs) => ['['] + PrintItems(xs) + [']']
  }

  /** The first item, then `,` before each further one. */
  function PrintItems(xs: seq<Data>): seq<char>
    decreases ItemsSize(xs), 0
  {
    if |xs| == 0 then [] else Print(xs[0]) + PrintTail(xs[1..])
  }

  function PrintTail(xs: seq<Data>): seq<char>
    decreases ItemsSize(xs), 0
  {
    if |xs| == 0 then [] else [','] + Print(xs[0]) + PrintTail(xs[1..])
  }

  // ---------------------------------------------------------------------------
  // Parsing. The parser's state is the input not yet consumed; every
  // `panic!` is an `Err`.

  /** `Parser::peek`. */
  function Peek(s: seq<char>): (r: Option<char>)
    ensures r.Some? <==> |s| > 0
    ensures r.Some? ==> r.value == s[0]
  {
    if |s| == 0 then None else Some(s[0])
  }

  /** `Parser::accept`: consume `c` or fail. */
  function Accept(s: seq<char>, c: char): (r: Result<seq<char>>)
    ensures r.Ok? <==> |s| > 0 && s[0] == c
    ensures r.Ok? ==> r.value == s[1..]
  {
    if Peek(s) != Some(c) then Err("syntax error") else Ok(s[1..])
  }

  /** The number of leading digits. */
  function DigitRun(s: seq<char>): (n: nat)
    ensures n <= |s|
    ensures forall i :: 0 <= i < n ==> IsDigit(s[i])
    ensures n == |s| || !IsDigit(s[n])
  {
    if |s| > 0 && IsDigit(s[0]) then 1 + DigitRun(s[1..]) else 0
  }

  /** `Parser::integer`: the longest run of digits; parsing an empty run
      panics. */
  function ParseInteger(s: seq<char>): (r: Result<(Data, seq<char>)>)
    ensures r.Ok? <==> |s| > 0 && IsDigit(s[0])
    ensures r.Ok? ==> |r.value.1| < |s|
  {
    var n := DigitRun(s);
    if n == 0 then Err("invalid digit")
    else Ok((Int(DecimalValue(s[..n])), s[n..]))
  }

  /** `Parser::list`. */
  function ParseList(s: seq<char>): (r: Result<(Data, seq<char>)>)
    ensures r.Ok? ==> |r.value.1| < |s|
    decreases |s|, 0
  {
    match Accept(s, '[')
    case Err(e) => Err(e)
    case Ok(s1) =>
      if Peek(s1) == Some(']') then Ok((List([]), s1[1..]))
      else
        match ParseElement(s1)
        case Err(e) => Err(e)
        case Ok((first, s2)) => ParseMore(s2, [first])
  }

  /** The `while` loop of `Parser::list`: more elements after commas, then
      the closing bracket. */
  function ParseMore(s: seq<char>, elements: seq<Data>): (r: Result<(Data, seq<char>)>)
    ensures r.Ok? ==> |r.value.1| < |s|
    decreases |s|, 2
  {
    if Peek(s) == Some(',') then
      match ParseElement(s[1..])
      case Err(e) => Err(e)
      case Ok((e, rest)) => ParseMore(rest, elements + [e])
    else
      match Accept(s, ']')
      case Err(e) => Err(e)
      case Ok(rest) => Ok((List(elements), rest))
  }

  /** `Parser::element`: an integer or a list, anything else is a syntax
      error. */
  function ParseElement(s: seq<char>): (r: Result<(Data, seq<char>)>)
    ensures r.Ok? ==> |r.value.1| < |s|
    ensures |s| == 0 || (s[0] != '[' && !IsDigit(s[0])) ==> r.Err?
    decreases |s|, 1
  {
    match Peek(s)
    case Some(c) =>
      if IsDigit(c) then ParseInteger(s)
      else if c == '[' then ParseList(s)
      else Err("syntax error")
    case None => Err("syntax error")
  }

  /** `parse`: a list, ignoring whatever follows it. */
  function Parse(s: seq<char>): (r: Result<Data>)
    ensures |s| == 0 || s[0] != '[' ==> r.Err?
  {
    match ParseList(s)
    case Err(e) => Err(e)
    case Ok((d, _)) => Ok(d)
  }

  // ---------------------------------------------------------------------------
  // Printing then parsing gives the packet back.

  /** Packets the printer and parser agree on: no negative integers. */
  predicate NonNegative(d: Data)
    decreases Size(d), 1
  {
    match d
    case Int(i) => i >= 0
    case List(xs) => ItemsNonNegative(xs)
  }

  predicate ItemsNonNegative(xs: seq<Data>)
    decreases ItemsSize(xs), 0
  {
    |xs| == 0 || (NonNegative(xs[0]) && ItemsNonNegative(xs[1..]))
  }

  /** Reading a printed number stops at the first non-digit. */
  lemma IntegerRoundTrip(n: nat, tail: seq<char>)
    requires |tail| == 0 || !IsDigit(tail[0])
    ensures ParseInteger(NatToString(n) + tail) == Ok((Int(n), tail))
  {
    var ds := NatToString(n);
    NatToStringRoundTrip(n);
    var s := ds + tail;
    DigitRunOf(ds, tail);
    assert s[..|ds|] == ds && s[|ds|..] == tail;
  }

  lemma {:induction false} DigitRunOf(ds: seq<char>, tail: seq<char>)
    requires forall i :: 0 <= i < |ds| ==> IsDigit(ds[i])
    requires |tail| == 0 || !IsDigit(tail[0])
    ensures DigitRun(ds + tail) == |ds|
  {
    if |ds| > 0 {
      assert (ds + tail)[1..] == ds[1..] + tail;
      DigitRunOf(ds[1..], tail);
    } else {
      assert ds + tail == tail;
    }
  }

  /** An element followed by anything that cannot continue it parses back
      to itself, leaving the rest. */
  lemma {:induction false} ElementRoundTrip(d: Data, tail: seq<char>)
    requires NonNegative(d)
    requires d.Int? ==> |tail| == 0 || !IsDigit(tail[0])
    ensures ParseElement(Print(d) + tail) == Ok((d, tail))
    decreases Size(d), 2
  {
    match d
    case Int(i) =>
      IntegerRoundTrip(i, tail);
    case List(xs) =>
      ListRoundTrip(xs, tail);
  }

  /** A printed list followed by anything parses back to itself. */
  lemma {:induction false} ListRoundTrip(xs: seq<Data>, tail: seq<char>)
    requires ItemsNonNegative(xs)
    ensures ParseList(Print(List(xs)) + tail) == Ok((List(xs), tail))
    decreases ItemsSize(xs) + 1, 1
  {
    var s := Print(List(xs)) + tail;
    if |xs| == 0 {
      EmptyListRoundTrip(tail);
    } else {
      var e, more := xs[0], xs[1..];
      var rest := PrintTail(more) + [']'] + tail;
      assert |s| > 0 && s[0] == '[' && ParseElement(s[1..]) == Ok((e, rest)) by {
        ListStep(xs, tail);
        Separator(more, tail);
        ElementRoundTrip(e, rest);
      }
      assert ParseList(s) == ParseMore(rest, [e]) by {
        ListAfterOpen(s, e, rest);
      }
      assert ParseMore(rest, [e]) == Ok((List([e] + more), tail)) by {
        TailRoundTrip(more, [e], tail);
      }
      assert [e] + more == xs;
    }
  }

  /** The remaining comma-separated items and the closing bracket parse
      back, appending the items to those already read. */
  lemma {:induction false} TailRoundTrip(xs: seq<Data>, before: seq<Data>, tail: seq<char>)
    requires ItemsNonNegative(xs)
    ensures ParseMore(PrintTail(xs) + [']'] + tail, before) == Ok((List(before + xs), tail))
    decreases ItemsSize(xs), 0
  {
    var s := PrintTail(xs) + [']'] + tail;
    if |xs| == 0 {
      EmptyTailRoundTrip(before, tail);
    } else {
      var e, more := xs[0], xs[1..];
      var rest := PrintTail(more) + [']'] + tail;
      assert NonNegative(e) && ItemsNonNegative(more);
      assert ItemsSize(xs) == Size(e) + ItemsSize(more) && Size(e) >= 1;
      assert |s| > 0 && s[0] == ',' && ParseElement(s[1..]) == Ok((e, rest)) by {
        TailStep(xs, tail);
        Separator(more, tail);
        ElementRoundTrip(e, rest);
      }
      assert ParseMore(s, before) == ParseMore(rest, before + [e]) by {
        MoreAfterComma(s, before, e, rest);
      }
      assert ParseMore(rest, before + [e]) == Ok((List(before + [e] + more), tail)) by {
        TailRoundTrip(more, before + [e], tail);
      }
      assert before + [e] + more == before + xs;
    }
  }

  lemma EmptyListRoundTrip(tail: seq<char>)
    ensures ParseList(Print(List([])) + tail) == Ok((List([]), tail))
  {
    var s := Print(List([])) + tail;
    assert s == ['[', ']'] + tail;
    assert Accept(s, '[') == Ok(s[1..]);
    assert s[1..][1..] == tail;
  }

  /** A non-empty printed list is an opening bracket, the first item, and
      the rest. */
  lemma ListStep(xs: seq<Data>, tail: seq<char>)
    requires |xs| > 0
    ensures var s := Print(List(xs)) + tail;
      s[0] == '[' && s[1..] == Print(xs[0]) + (PrintTail(xs[1..]) + [']'] + tail)
  {
    var p, t, r := Print(xs[0]), PrintTail(xs[1..]), [']'] + tail;
    var x := PrintItems(xs);
    assert x == p + t;
    assert Print(List(xs)) == ['['] + x + [']'];
    Wrap('[', x, ']', tail);
    Regroup('[', p, t, r);
    Assoc(t, [']'], tail);
  }

  lemma EmptyTailRoundTrip(before: seq<Data>, tail: seq<char>)
    ensures ParseMore(PrintTail([]) + [']'] + tail, before) == Ok((List(before + []), tail))
  {
    var s := PrintTail([]) + [']'] + tail;
    assert s == [']'] + tail;
    MoreAtClose(s, before);
    assert before + [] == before;
  }

  /** A list whose first element parses continues with the comma loop. */
  lemma ListAfterOpen(s: seq<char>, e: Data, rest: seq<char>)
    requires |s| > 0 && s[0] == '[' && ParseElement(s[1..]) == Ok((e, rest))
    ensures ParseList(s) == ParseMore(rest, [e])
  {
    assert Accept(s, '[') == Ok(s[1..]);
    assert Peek(s[1..]) != Some(']');
  }

  /** The comma loop ends at the closing bracket. */
  lemma MoreAtClose(s: seq<char>, before: seq<Data>)
    requires |s| > 0 && s[0] == ']'
    ensures ParseMore(s, before) == Ok((List(before), s[1..]))
  {
    assert Peek(s) == Some(']');
  }

  /** One turn of the comma loop: the element after the comma joins the
      elements read so far. */
  lemma MoreAfterComma(s: seq<char>, before: seq<Data>, e: Data, rest: seq<char>)
    requires |s| > 0 && s[0] == ',' && ParseElement(s[1..]) == Ok((e, rest))
    ensures ParseMore(s, before) == ParseMore(rest, before + [e])
  {
    assert Peek(s) == Some(',');
  }

  /** A non-empty tail is a comma, the first item, and the rest. */
  lemma TailStep(xs: seq<Data>, tail: seq<char>)
    requires |xs| > 0
    ensures var s := PrintTail(xs) + [']'] + tail;
      s[0] == ',' && s[1..] == Print(xs[0]) + (PrintTail(xs[1..]) + [']'] + tail)
  {
    var p, t, r := Print(xs[0]), PrintTail(xs[1..]), [']'] + tail;
    var x := PrintTail(xs);
    assert x == [','] + p + t;
    Assoc(x, [']'], tail);
    Regroup(',', p, t, r);
    Assoc(t, [']'], tail);
  }

  lemma Regroup(c: char, a: seq<char>, b: seq<char>, d: seq<char>)
    ensures var s := [c] + a + b + d; s[0] == c && s[1..] == a + (b + d)
  {
    assert [c] + a + b + d == [c] + (a + (b + d));
  }

  lemma Assoc(a: seq<char>, b: seq<char>, c: seq<char>)
    ensures a + b + c == a + (b + c)
  {
  }

  /** A bracketed sequence followed by more text, regrouped. */
  lemma Wrap(open: char, x: seq<char>, close: char, tail: seq<char>)
    ensures [open] + x + [close] + tail == [open] + x + ([close] + tail)
  {
  }

  /** What follows an item is a comma or the closing bracket. */
  lemma Separator(xs: seq<Data>, tail: seq<char>)
    ensures var s := PrintTail(xs) + [']'] + tail;
      |s| > 0 && (s[0] == ',' || s[0] == ']')
  {
    if |xs| > 0 {
      TailStep(xs, tail);
    } else {
      assert PrintTail(xs) + [']'] + tail == [']'] + tail;
    }
  }

  /** `parse(d.to_string()) == d` for every list without negative
      integers. */
  lemma ParsePrint(xs: seq<Data>)
    requires ItemsNonNegative(xs)
    ensures Parse(Print(List(xs))) == Ok(List(xs))
  {
    ListRoundTrip(xs, []);
    assert Print(List(xs)) + [] == Print(List(xs));
  }

  /** The digits the examples use print as themselves. */
  lemma SmallInts()
    ensures Print(Int(1)) == "1" && Print(Int(2)) == "2" && Print(Int(3)) == "3"
    ensures Print(Int(4)) == "4" && Print(Int(5)) == "5" && Print(Int(6)) == "6"
  {
  }

  lemma PrintFlat()
    ensures var a := [Int(1), Int(1), Int(3), Int(1), Int(1)];
      Print(List(a)) == "[1,1,3,1,1]" && ItemsNonNegative(a)
  {
    var a := [Int(1), Int(1), Int(3), Int(1), Int(1)];
    SmallInts();
    assert PrintTail(a[1..]) == ",1,3,1,1" && ItemsNonNegative(a[1..]) by {
      FlatTail(a[1..]);
    }
  }

  lemma FlatTail(a: seq<Data>)
    requires a == [Int(1), Int(3), Int(1), Int(1)]
    ensures PrintTail(a) == ",1,3,1,1" && ItemsNonNegative(a)
  {
    SmallInts();
    assert PrintTail(a[3..]) == ",1";
    assert PrintTail(a[2..]) == ",1,1";
    assert PrintTail(a[1..]) == ",3,1,1";
    assert ItemsNonNegative(a[3..]) && ItemsNonNegative(a[2..]) && ItemsNonNegative(a[1..]);
  }

  /** The first parsing example of the test module. */
  lemma ParseFlatExample()
    ensures Parse("[1,1,3,1,1]") == Ok(List([Int(1), Int(1), Int(3), Int(1), Int(1)]))
  {
    PrintFlat();
    ParsePrint([Int(1), Int(1), Int(3), Int(1), Int(1)]);
  }

  lemma PrintInner()
    ensures Print(List([Int(1)])) == "[1]" && ItemsNonNegative([Int(1)])
    ensures Print(List([Int(2), Int(3), Int(4)])) == "[2,3,4]" && ItemsNonNegative([Int(2), Int(3), Int(4)])
  {
    SmallInts();
    var y := [Int(2), Int(3), Int(4)];
    assert PrintTail(y[2..]) == ",4";
    assert PrintTail(y[1..]) == ",3,4";
    assert ItemsNonNegative(y[2..]) && ItemsNonNegative(y[1..]);
  }

  lemma PrintNested()
    ensures var b := [List([Int(1)]), List([Int(2), Int(3), Int(4)])];
      Print(List(b)) == "[[1],[2,3,4]]" && ItemsNonNegative(b)
  {
    PrintInner();
    var b := [List([Int(1)]), List([Int(2), Int(3), Int(4)])];
    assert PrintTail(b[1..]) == ",[2,3,4]";
    assert ItemsNonNegative(b[1..]);
  }

  /** The second parsing example of the test module. */
  lemma ParseNestedExample()
    ensures Parse("[[1],[2,3,4]]") == Ok(List([List([Int(1)]), List([Int(2), Int(3), Int(4)])]))
  {
    PrintNested();
    ParsePrint([List([Int(1)]), List([Int(2), Int(3), Int(4)])]);
  }

  /** The third parsing example of the test module. */
  lemma ParseEmptyExample()
    ensures Parse("[[[]]]") == Ok(List([List([List([])])]))
  {
    var c := [List([List([])])];
    assert Print(List([])) == "[]";
    assert Print(List([List([])])) == "[[]]";
    assert Print(List(c)) == "[[[]]]";
    ParsePrint(c);
  }

  /** The divider packets print back as the text they were parsed from,
      so the search by `to_string` finds them. */
  lemma DividerPackets()
    ensures Parse("[[2]]") == Ok(List([List([Int(2)])]))
    ensures Parse("[[6]]") == Ok(List([List([Int(6)])]))
    ensures Print(Parse("[[2]]").value) == "[[2]]"
    ensures Print(Parse("[[6]]").value) == "[[6]]"
  {
    SmallInts();
    assert Print(List([Int(2)])) == "[2]";
    assert Print(List([Int(6)])) == "[6]";
    assert Print(List([List([Int(2)])])) == "[[2]]";
    ParsePrint([List([Int(2)])]);
    assert Print(List([List([Int(6)])])) == "[[6]]";
    ParsePrint([List([Int(6)])]);
  }

  /** The first pair of the puzzle's example is in the right order, decided
      by its third integers. */
  lemma CompareExample()
    ensures Compare(List([Int(1), Int(1), Int(3), Int(1), Int(1)]), List([Int(1), Int(1), Int(5), Int(1), Int(1)])) == Some(true)
  {
    var a, b := [Int(1), Int(1), Int(3), Int(1), Int(1)], [Int(1), Int(1), Int(5), Int(1), Int(1)];
    assert a == [Int(1), Int(1)] + a[2..] && b == [Int(1), Int(1)] + b[2..];
    CommonPrefix([Int(1), Int(1)], a[2..], b[2..]);
  }
}
