/** Day 6: find the first position after which the last `n` characters of
    the datastream are pairwise distinct, keeping those characters in a ring
    buffer (day-6/src/main.rs). */
module Day06Marker {
  import opened Wrappers
  import opened Arithmetic

  predicate AllDistinct(w: seq<char>)
  {
    forall a, b :: 0 <= a < b < |w| ==> w[a] != w[b]
  }

  /** The window of `n` characters that ends at index `i`. */
  function Window(s: string, n: nat, i: nat): seq<char>
    requires n > 0 && n - 1 <= i < |s|
  {
    s[i - (n - 1) .. i + 1]
  }

  /** Reference definition: the first index `j >= from` (with `j < |s|`)
      whose window is distinct, reported as the count `j + 1` of characters
      processed. */
  function FirstMarker(s: string, n: nat, from: nat): (r: Option<nat>)
    requires n > 0 && from >= n - 1
    ensures r.Some? ==> from < r.value <= |s| && AllDistinct(Window(s, n, r.value - 1))
    ensures r.Some? ==> forall j :: from <= j < r.value - 1 ==> !AllDistinct(Window(s, n, j))
    ensures r.None? <==> forall j :: from <= j < |s| ==> !AllDistinct(Window(s, n, j))
    decreases |s| - from
  {
    if from >= |s| then None
    else if AllDistinct(Window(s, n, from)) then Some(from + 1)
    else FirstMarker(s, n, from + 1)
  }

  function Elements(w: seq<char>): set<char>
  {
    set k | 0 <= k < |w| :: w[k]
  }

  /** A sequence has as many distinct elements as its length exactly when
      no element repeats: the test `set.len() == PREFIX_SIZE`. */
  lemma {:induction false} ElementsCount(w: seq<char>)
    ensures |Elements(w)| <= |w|
    ensures |Elements(w)| == |w| <==> AllDistinct(w)
  {
    if |w| > 0 {
      var init := w[..|w| - 1];
      ElementsCount(init);
      assert Elements(w) == Elements(init) + {w[|w| - 1]} by {
        forall c | c in Elements(w) ensures c in Elements(init) + {w[|w| - 1]} {
          var k :| 0 <= k < |w| && w[k] == c;
          if k < |w| - 1 { assert init[k] == c; }
        }
        forall c | c in Elements(init) ensures c in Elements(w) {
          var k :| 0 <= k < |init| && init[k] == c;
          assert w[k] == c;
        }
      }
      if w[|w| - 1] in Elements(init) {
        var k :| 0 <= k < |init| && init[k] == w[|w| - 1];
        assert w[k] == w[|w| - 1];
      } else {
        assert AllDistinct(w) <==> AllDistinct(init) by {
          if AllDistinct(init) {
            forall a, b | 0 <= a < b < |w| ensures w[a] != w[b] {
              if b == |w| - 1 { assert init[a] == w[a]; assert w[a] in Elements(init); }
              else { assert init[a] == w[a] && init[b] == w[b]; }
            }
          }
          if AllDistinct(w) {
            forall a, b | 0 <= a < b < |init| ensures init[a] != init[b] {
              assert init[a] == w[a] && init[b] == w[b];
            }
          }
        }
      }
    }
  }

  /** Two of the last `n` positions never share a ring-buffer slot. */
  lemma SlotsDiffer(i: nat, j: nat, n: nat)
    requires n > 0 && j < i < j + n
    ensures j % n != i % n
  {
    var qi, qj := i / n, j / n;
    assert i == qi * n + i % n && j == qj * n + j % n;
    assert i - j == (qi - qj) * n + (i % n - j % n);
    MulAtLeast(qi - qj, n);
  }

  /** Every slot holds one of the last `n` positions. */
  lemma SlotWitness(i: nat, k: nat, n: nat)
    requires 0 <= k < n && n - 1 <= i
    ensures var j := i - (i - k) % n; i - (n - 1) <= j <= i && j % n == k
  {
    var q := (i - k) / n;
    var j := i - (i - k) % n;
    assert i - k == q * n + (i - k) % n;
    assert j == k + q * n;
    var m := j;
    assert m == (m / n) * n + m % n;
    assert (m / n - q) * n == k - m % n;
    MulAtLeast(m / n - q, n);
  }

  /** The loop of `start_distinct`. `buffer[i % n]` receives character `i`;
      windows ending before index `first` are not examined, and the first
      examined window whose buffer holds `n` distinct characters answers. */
  method Scan(s: string, n: nat, first: nat) returns (r: Option<nat>)
    requires n > 0 && first >= n - 1
    ensures r == FirstMarker(s, n, first)
  {
    var buffer := seq(n, _ => '\0');
    var i := 0;
    while i < |s|
      invariant 0 <= i <= |s| && |buffer| == n
      invariant forall j :: 0 <= j < i && i <= j + n ==> buffer[j % n] == s[j]
      invariant forall j :: first <= j < i ==> !AllDistinct(Window(s, n, j))
    {
      forall j | 0 <= j < i && i < j + n
        ensures j % n != i % n
      {
        SlotsDiffer(i, j, n);
      }
      buffer := buffer[i % n := s[i]];
      if i >= first {
        var seen := set k | 0 <= k < n :: buffer[k];
        assert seen == Elements(buffer);
        BufferHoldsWindow(s, n, i, buffer);
        ElementsCount(buffer);
        ElementsCount(Window(s, n, i));
        if |seen| == n {
          FirstMarkerFound(s, n, first, i);
          return Some(i + 1);
        }
      }
      i := i + 1;
    }
    FirstMarkerNone(s, n, first);
    return None;
  }

  /** Once `n` characters have been written, the ring buffer holds exactly
      the characters of the current window, in rotated order. */
  lemma BufferHoldsWindow(s: string, n: nat, i: nat, buffer: seq<char>)
    requires n > 0 && n - 1 <= i < |s| && |buffer| == n
    requires forall j :: 0 <= j <= i && i < j + n ==> buffer[j % n] == s[j]
    ensures Elements(buffer) == Elements(Window(s, n, i))
  {
    BufferWithinWindow(s, n, i, buffer);
    WindowWithinBuffer(s, n, i, buffer);
  }

  lemma BufferWithinWindow(s: string, n: nat, i: nat, buffer: seq<char>)
    requires n > 0 && n - 1 <= i < |s| && |buffer| == n
    requires forall j :: 0 <= j <= i && i < j + n ==> buffer[j % n] == s[j]
    ensures Elements(buffer) <= Elements(Window(s, n, i))
  {
    var w := Window(s, n, i);
    forall c | c in Elements(buffer) ensures c in Elements(w) {
      var k :| 0 <= k < n && buffer[k] == c;
      SlotWitness(i, k, n);
      var j := i - (i - k) % n;
      assert w[j - (i - (n - 1))] == s[j];
    }
  }

  lemma WindowWithinBuffer(s: string, n: nat, i: nat, buffer: seq<char>)
    requires n > 0 && n - 1 <= i < |s| && |buffer| == n
    requires forall j :: 0 <= j <= i && i < j + n ==> buffer[j % n] == s[j]
    ensures Elements(Window(s, n, i)) <= Elements(buffer)
  {
    var w := Window(s, n, i);
    forall c | c in Elements(w) ensures c in Elements(buffer) {
      var a :| 0 <= a < |w| && w[a] == c;
      var j := a + i - (n - 1);
      assert s[j] == c;
      assert buffer[j % n] == c;
    }
  }

  lemma {:induction false} FirstMarkerFound(s: string, n: nat, from: nat, i: nat)
    requires n > 0 && n - 1 <= from <= i < |s|
    requires AllDistinct(Window(s, n, i))
    requires forall j :: from <= j < i ==> !AllDistinct(Window(s, n, j))
    ensures FirstMarker(s, n, from) == Some(i + 1)
    decreases i - from
  {
    if from < i {
      FirstMarkerFound(s, n, from + 1, i);
    }
  }

  lemma {:induction false} FirstMarkerNone(s: string, n: nat, from: nat)
    requires n > 0 && n - 1 <= from
    requires forall j :: from <= j < |s| ==> !AllDistinct(Window(s, n, j))
    ensures FirstMarker(s, n, from) == None
    decreases |s| - from
  {
    if from < |s| {
      FirstMarkerNone(s, n, from + 1);
    }
  }

  /** `start_distinct` as written: the check is skipped while `i < n`, so the
      first full window, ending at index `n - 1`, is never examined. */
  method StartDistinctAsWritten(s: string, n: nat) returns (r: Option<nat>)
    requires n > 0
    ensures r == FirstMarker(s, n, n)
  {
    r := Scan(s, n, n);
  }

  /** `start_distinct` with the evidently intended bound: every full window
      is examined, so the answer is the end of the first distinct window. */
  method StartDistinct(s: string, n: nat) returns (r: Option<nat>)
    requires n > 0
    ensures r == FirstMarker(s, n, n - 1)
    ensures r.Some? ==> n <= r.value <= |s|
  {
    r := Scan(s, n, n - 1);
  }

  /** `start_packet` as written: a window of 4, scanned by
      `StartDistinctAsWritten`, so only windows ending at index 4 or later
      are examined. */
  method StartPacket(s: string) returns (r: Option<nat>)
    ensures r == FirstMarker(s, 4, 4)
    ensures r.Some? ==> 5 <= r.value <= |s|
  {
    r := StartDistinctAsWritten(s, 4);
  }

  /** `start_message` as written: a window of 14, scanned by
      `StartDistinctAsWritten`. */
  method StartMessage(s: string) returns (r: Option<nat>)
    ensures r == FirstMarker(s, 14, 14)
    ensures r.Some? ==> 15 <= r.value <= |s|
  {
    r := StartDistinctAsWritten(s, 14);
  }

  /** `start_packet` with the intended scan: the first distinct window of 4. */
  method StartPacketIntended(s: string) returns (r: Option<nat>)
    ensures r == FirstMarker(s, 4, 3)
    ensures r.Some? ==> 4 <= r.value <= |s|
  {
    r := StartDistinct(s, 4);
  }

  /** `start_message` with the intended scan: the first distinct window of 14. */
  method StartMessageIntended(s: string) returns (r: Option<nat>)
    ensures r == FirstMarker(s, 14, 13)
    ensures r.Some? ==> 14 <= r.value <= |s|
  {
    r := StartDistinct(s, 14);
  }

  /** The two scans agree exactly when the first full window is missing or
      is not itself a marker; otherwise the intended scan answers `n`. */
  lemma AsWrittenAgrees(s: string, n: nat)
    requires n > 0
    ensures FirstMarker(s, n, n - 1) == FirstMarker(s, n, n) <==> (|s| < n || !AllDistinct(Window(s, n, n - 1)))
    ensures |s| >= n && AllDistinct(Window(s, n, n - 1)) ==> FirstMarker(s, n, n - 1) == Some(n)
  {
  }

  /** The discrepancy: on "abcd" the first four characters are already
      distinct, but the scan as written reports no marker at all, and on
      "abcda" it reports 5 instead of 4. */
  lemma FirstWindowSkipped()
    ensures FirstMarker("abcd", 4, 4) == None
    ensures FirstMarker("abcd", 4, 3) == Some(4)
    ensures FirstMarker("abcda", 4, 4) == Some(5)
    ensures FirstMarker("abcda", 4, 3) == Some(4)
  {
    assert Window("abcd", 4, 3) == "abcd";
    assert Window("abcda", 4, 3) == "abcd";
    assert Window("abcda", 4, 4) == "bcda";
  }

  /** A window with a repeated character is not a marker. */
  lemma Repeats(s: string, n: nat, i: nat, x: nat, y: nat)
    requires n > 0 && n - 1 <= i < |s|
    requires x < y < n && s[i - (n - 1) + x] == s[i - (n - 1) + y]
    ensures !AllDistinct(Window(s, n, i))
  {
    assert Window(s, n, i)[x] == Window(s, n, i)[y];
  }

  lemma PacketWindow1(s: string)
    requires |s| >= 7
    requires s[0] == 'm' && s[1] == 'j' && s[2] == 'q' && s[3] == 'j' && s[4] == 'p' && s[5] == 'q' && s[6] == 'm'
    ensures AllDistinct(Window(s, 4, 6))
  {
    var w := Window(s, 4, 6);
    assert w[0] == s[3] && w[1] == s[4] && w[2] == s[5] && w[3] == s[6];
    forall a, b | 0 <= a < b < 4 ensures w[a] != w[b] {
      if b == 1 { assert a == 0; }
      else if b == 2 { assert a == 0 || a == 1; }
      else if b == 3 { assert a == 0 || a == 1 || a == 2; }
    }
  }

  lemma PacketBefore1(s: string)
    requires |s| >= 7
    requires s[0] == 'm' && s[1] == 'j' && s[2] == 'q' && s[3] == 'j' && s[4] == 'p' && s[5] == 'q' && s[6] == 'm'
    ensures forall j :: 3 <= j < 6 ==> !AllDistinct(Window(s, 4, j))
  {
    Repeats(s, 4, 3, 1, 3);
    Repeats(s, 4, 4, 0, 2);
    Repeats(s, 4, 5, 0, 3);
    forall j | 3 <= j < 6 ensures !AllDistinct(Window(s, 4, j)) {
      assert j == 3 || j == 4 || j == 5;
    }
  }

  /** Example 1 of the test suite, "mjqjpqmgbljsphdztnvjfqwrcgsmlb": any input that begins with its
      first 7 characters has its start-of-packet marker after 7 characters,
      whether or not the first full window is examined. */
  lemma PacketExample1(s: string)
    requires |s| >= 7
    requires s[0] == 'm' && s[1] == 'j' && s[2] == 'q' && s[3] == 'j' && s[4] == 'p' && s[5] == 'q' && s[6] == 'm'
    ensures FirstMarker(s, 4, 3) == Some(7)
    ensures FirstMarker(s, 4, 4) == Some(7)
  {
    PacketWindow1(s);
    PacketBefore1(s);
    FirstMarkerFound(s, 4, 3, 6);
    FirstMarkerFound(s, 4, 4, 6);
  }

  lemma MessageWindow1(s: string)
    requires |s| >= 19
    requires s[0] == 'm' && s[1] == 'j' && s[2] == 'q' && s[3] == 'j' && s[4] == 'p' && s[5] == 'q' && s[6] == 'm' && s[7] == 'g' && s[8] == 'b' && s[9] == 'l' && s[10] == 'j' && s[11] == 's' && s[12] == 'p' && s[13] == 'h' && s[14] == 'd' && s[15] == 'z' && s[16] == 't' && s[17] == 'n' && s[18] == 'v'
    ensures AllDistinct(Window(s, 14, 18))
  {
    var w := Window(s, 14, 18);
    assert w[0] == s[5] && w[1] == s[6] && w[2] == s[7] && w[3] == s[8] && w[4] == s[9] && w[5] == s[10] && w[6] == s[11] && w[7] == s[12] && w[8] == s[13] && w[9] == s[14] && w[10] == s[15] && w[11] == s[16] && w[12] == s[17] && w[13] == s[18];
    forall a, b | 0 <= a < b < 14 ensures w[a] != w[b] {
      if b == 1 { assert a == 0; }
      else if b == 2 { assert a == 0 || a == 1; }
      else if b == 3 { assert a == 0 || a == 1 || a == 2; }
      else if b == 4 { assert a == 0 || a == 1 || a == 2 || a == 3; }
      else if b == 5 { assert a == 0 || a == 1 || a == 2 || a == 3 || a == 4; }
      else if b == 6 { assert a == 0 || a == 1 || a == 2 || a == 3 || a == 4 || a == 5; }
      else if b == 7 { assert a == 0 || a == 1 || a == 2 || a == 3 || a == 4 || a == 5 || a == 6; }
      else if b == 8 { assert a == 0 || a == 1 || a == 2 || a == 3 || a == 4 || a == 5 || a == 6 || a == 7; }
      else if b == 9 { assert a == 0 || a == 1 || a == 2 || a == 3 || a == 4 || a == 5 || a == 6 || a == 7 || a == 8; }
      else if b == 10 { assert a == 0 || a == 1 || a == 2 || a == 3 || a == 4 || a == 5 || a == 6 || a == 7 || a == 8 || a == 9; }
      else if b == 11 { assert a == 0 || a == 1 || a == 2 || a == 3 || a == 4 || a == 5 || a == 6 || a == 7 || a == 8 || a == 9 || a == 10; }
      else if b == 12 { assert a == 0 || a == 1 || a == 2 || a == 3 || a == 4 || a == 5 || a == 6 || a == 7 || a == 8 || a == 9 || a == 10 || a == 11; }
      else if b == 13 { assert a == 0 || a == 1 || a == 2 || a == 3 || a == 4 || a == 5 || a == 6 || a == 7 || a == 8 || a == 9 || a == 10 || a == 11 || a == 12; }
    }
  }

  lemma MessageBefore1(s: string)
    requires |s| >= 19
    requires s[0] == 'm' && s[1] == 'j' && s[2] == 'q' && s[3] == 'j' && s[4] == 'p' && s[5] == 'q' && s[6] == 'm' && s[7] == 'g' && s[8] == 'b' && s[9] == 'l' && s[10] == 'j' && s[11] == 's' && s[12] == 'p' && s[13] == 'h' && s[14] == 'd' && s[15] == 'z' && s[16] == 't' && s[17] == 'n' && s[18] == 'v'
    ensures forall j :: 13 <= j < 18 ==> !AllDistinct(Window(s, 14, j))
  {
    Repeats(s, 14, 13, 1, 3);
    Repeats(s, 14, 14, 0, 2);
    Repeats(s, 14, 15, 0, 3);
    Repeats(s, 14, 16, 0, 7);
    Repeats(s, 14, 17, 0, 8);
    forall j | 13 <= j < 18 ensures !AllDistinct(Window(s, 14, j)) {
      assert j == 13 || j == 14 || j == 15 || j == 16 || j == 17;
    }
  }

  /** Example 1 of the test suite, "mjqjpqmgbljsphdztnvjfqwrcgsmlb": any input that begins with its
      first 19 characters has its start-of-message marker after 19 characters,
      whether or not the first full window is examined. */
  lemma MessageExample1(s: string)
    requires |s| >= 19
    requires s[0] == 'm' && s[1] == 'j' && s[2] == 'q' && s[3] == 'j' && s[4] == 'p' && s[5] == 'q' && s[6] == 'm' && s[7] == 'g' && s[8] == 'b' && s[9] == 'l' && s[10] == 'j' && s[11] == 's' && s[12] == 'p' && s[13] == 'h' && s[14] == 'd' && s[15] == 'z' && s[16] == 't' && s[17] == 'n' && s[18] == 'v'
    ensures FirstMarker(s, 14, 13) == Some(19)
    ensures FirstMarker(s, 14, 14) == Some(19)
  {
    MessageWindow1(s);
    MessageBefore1(s);
    FirstMarkerFound(s, 14, 13, 18);
    FirstMarkerFound(s, 14, 14, 18);
  }

  lemma PacketWindow2(s: string)
    requires |s| >= 5
    requires s[0] == 'b' && s[1] == 'v' && s[2] == 'w' && s[3] == 'b' && s[4] == 'j'
    ensures AllDistinct(Window(s, 4, 4))
  {
    var w := Window(s, 4, 4);
    assert w[0] == s[1] && w[1] == s[2] && w[2] == s[3] && w[3] == s[4];
    forall a, b | 0 <= a < b < 4 ensures w[a] != w[b] {
      if b == 1 { assert a == 0; }
      else if b == 2 { assert a == 0 || a == 1; }
      else if b == 3 { assert a == 0 || a == 1 || a == 2; }
    }
  }

  lemma PacketBefore2(s: string)
    requires |s| >= 5
    requires s[0] == 'b' && s[1] == 'v' && s[2] == 'w' && s[3] == 'b' && s[4] == 'j'
    ensures forall j :: 3 <= j < 4 ==> !AllDistinct(Window(s, 4, j))
  {
    Repeats(s, 4, 3, 0, 3);
    forall j | 3 <= j < 4 ensures !AllDistinct(Window(s, 4, j)) {
      assert j == 3;
    }
  }

  /** Example 2 of the test suite, "bvwbjplbgvbhsrlpgdmjqwftvncz": any input that begins with its
      first 5 characters has its start-of-packet marker after 5 characters,
      whether or not the first full window is examined. */
  lemma PacketExample2(s: string)
    requires |s| >= 5
    requires s[0] == 'b' && s[1] == 'v' && s[2] == 'w' && s[3] == 'b' && s[4] == 'j'
    ensures FirstMarker(s, 4, 3) == Some(5)
    ensures FirstMarker(s, 4, 4) == Some(5)
  {
    PacketWindow2(s);
    PacketBefore2(s);
    FirstMarkerFound(s, 4, 3, 4);
    FirstMarkerFound(s, 4, 4, 4);
  }

  lemma MessageWindow2(s: string)
    requires |s| >= 23
    requires s[0] == 'b' && s[1] == 'v' && s[2] == 'w' && s[3] == 'b' && s[4] == 'j' && s[5] == 'p' && s[6] == 'l' && s[7] == 'b' && s[8] == 'g' && s[9] == 'v' && s[10] == 'b' && s[11] == 'h' && s[12] == 's' && s[13] == 'r' && s[14] == 'l' && s[15] == 'p' && s[16] == 'g' && s[17] == 'd' && s[18] == 'm' && s[19] == 'j' && s[20] == 'q' && s[21] == 'w' && s[22] == 'f'
    ensures AllDistinct(Window(s, 14, 22))
  {
    var w := Window(s, 14, 22);
    assert w[0] == s[9] && w[1] == s[10] && w[2] == s[11] && w[3] == s[12] && w[4] == s[13] && w[5] == s[14] && w[6] == s[15] && w[7] == s[16] && w[8] == s[17] && w[9] == s[18] && w[10] == s[19] && w[11] == s[20] && w[12] == s[21] && w[13] == s[22];
    forall a, b | 0 <= a < b < 14 ensures w[a] != w[b] {
      if b == 1 { assert a == 0; }
      else if b == 2 { assert a == 0 || a == 1; }
      else if b == 3 { assert a == 0 || a == 1 || a == 2; }
      else if b == 4 { assert a == 0 || a == 1 || a == 2 || a == 3; }
      else if b == 5 { assert a == 0 || a == 1 || a == 2 || a == 3 || a == 4; }
      else if b == 6 { assert a == 0 || a == 1 || a == 2 || a == 3 || a == 4 || a == 5; }
      else if b == 7 { assert a == 0 || a == 1 || a == 2 || a == 3 || a == 4 || a == 5 || a == 6; }
      else if b == 8 { assert a == 0 || a == 1 || a == 2 || a == 3 || a == 4 || a == 5 || a == 6 || a == 7; }
      else if b == 9 { assert a == 0 || a == 1 || a == 2 || a == 3 || a == 4 || a == 5 || a == 6 || a == 7 || a == 8; }
      else if b == 10 { assert a == 0 || a == 1 || a == 2 || a == 3 || a == 4 || a == 5 || a == 6 || a == 7 || a == 8 || a == 9; }
      else if b == 11 { assert a == 0 || a == 1 || a == 2 || a == 3 || a == 4 || a == 5 || a == 6 || a == 7 || a == 8 || a == 9 || a == 10; }
      else if b == 12 { assert a == 0 || a == 1 || a == 2 || a == 3 || a == 4 || a == 5 || a == 6 || a == 7 || a == 8 || a == 9 || a == 10 || a == 11; }
      else if b == 13 { assert a == 0 || a == 1 || a == 2 || a == 3 || a == 4 || a == 5 || a == 6 || a == 7 || a == 8 || a == 9 || a == 10 || a == 11 || a == 12; }
    }
  }

  lemma MessageBefore2(s: string)
    requires |s| >= 23
    requires s[0] == 'b' && s[1] == 'v' && s[2] == 'w' && s[3] == 'b' && s[4] == 'j' && s[5] == 'p' && s[6] == 'l' && s[7] == 'b' && s[8] == 'g' && s[9] == 'v' && s[10] == 'b' && s[11] == 'h' && s[12] == 's' && s[13] == 'r' && s[14] == 'l' && s[15] == 'p' && s[16] == 'g' && s[17] == 'd' && s[18] == 'm' && s[19] == 'j' && s[20] == 'q' && s[21] == 'w' && s[22] == 'f'
    ensures forall j :: 13 <= j < 22 ==> !AllDistinct(Window(s, 14, j))
  {
    Repeats(s, 14, 13, 0, 3);
    Repeats(s, 14, 14, 2, 6);
    Repeats(s, 14, 15, 1, 5);
    Repeats(s, 14, 16, 0, 4);
    Repeats(s, 14, 17, 3, 6);
    Repeats(s, 14, 18, 2, 5);
    Repeats(s, 14, 19, 1, 4);
    Repeats(s, 14, 20, 0, 3);
    Repeats(s, 14, 21, 0, 8);
    forall j | 13 <= j < 22 ensures !AllDistinct(Window(s, 14, j)) {
      assert j == 13 || j == 14 || j == 15 || j == 16 || j == 17 || j == 18 || j == 19 || j == 20 || j == 21;
    }
  }

  /** Example 2 of the test suite, "bvwbjplbgvbhsrlpgdmjqwftvncz": any input that begins with its
      first 23 characters has its start-of-message marker after 23 characters,
      whether or not the first full window is examined. */
  lemma MessageExample2(s: string)
    requires |s| >= 23
    requires s[0] == 'b' && s[1] == 'v' && s[2] == 'w' && s[3] == 'b' && s[4] == 'j' && s[5] == 'p' && s[6] == 'l' && s[7] == 'b' && s[8] == 'g' && s[9] == 'v' && s[10] == 'b' && s[11] == 'h' && s[12] == 's' && s[13] == 'r' && s[14] == 'l' && s[15] == 'p' && s[16] == 'g' && s[17] == 'd' && s[18] == 'm' && s[19] == 'j' && s[20] == 'q' && s[21] == 'w' && s[22] == 'f'
    ensures FirstMarker(s, 14, 13) == Some(23)
    ensures FirstMarker(s, 14, 14) == Some(23)
  {
    MessageWindow2(s);
    MessageBefore2(s);
    FirstMarkerFound(s, 14, 13, 22);
    FirstMarkerFound(s, 14, 14, 22);
  }

  lemma PacketWindow3(s: string)
    requires |s| >= 6
    requires s[0] == 'n' && s[1] == 'p' && s[2] == 'p' && s[3] == 'd' && s[4] == 'v' && s[5] == 'j'
    ensures AllDistinct(Window(s, 4, 5))
  {
    var w := Window(s, 4, 5);
    assert w[0] == s[2] && w[1] == s[3] && w[2] == s[4] && w[3] == s[5];
    forall a, b | 0 <= a < b < 4 ensures w[a] != w[b] {
      if b == 1 { assert a == 0; }
      else if b == 2 { assert a == 0 || a == 1; }
      else if b == 3 { assert a == 0 || a == 1 || a == 2; }
    }
  }

  lemma PacketBefore3(s: string)
    requires |s| >= 6
    requires s[0] == 'n' && s[1] == 'p' && s[2] == 'p' && s[3] == 'd' && s[4] == 'v' && s[5] == 'j'
    ensures forall j :: 3 <= j < 5 ==> !AllDistinct(Window(s, 4, j))
  {
    Repeats(s, 4, 3, 1, 2);
    Repeats(s, 4, 4, 0, 1);
    forall j | 3 <= j < 5 ensures !AllDistinct(Window(s, 4, j)) {
      assert j == 3 || j == 4;
    }
  }

  /** Example 3 of the test suite, "nppdvjthqldpwncqszvftbrmjlhg": any input that begins with its
      first 6 characters has its start-of-packet marker after 6 characters,
      whether or not the first full window is examined. */
  lemma PacketExample3(s: string)
    requires |s| >= 6
    requires s[0] == 'n' && s[1] == 'p' && s[2] == 'p' && s[3] == 'd' && s[4] == 'v' && s[5] == 'j'
    ensures FirstMarker(s, 4, 3) == Some(6)
    ensures FirstMarker(s, 4, 4) == Some(6)
  {
    PacketWindow3(s);
    PacketBefore3(s);
    FirstMarkerFound(s, 4, 3, 5);
    FirstMarkerFound(s, 4, 4, 5);
  }

  lemma MessageWindow3(s: string)
    requires |s| >= 23
    requires s[0] == 'n' && s[1] == 'p' && s[2] == 'p' && s[3] == 'd' && s[4] == 'v' && s[5] == 'j' && s[6] == 't' && s[7] == 'h' && s[8] == 'q' && s[9] == 'l' && s[10] == 'd' && s[11] == 'p' && s[12] == 'w' && s[13] == 'n' && s[14] == 'c' && s[15] == 'q' && s[16] == 's' && s[17] == 'z' && s[18] == 'v' && s[19] == 'f' && s[20] == 't' && s[21] == 'b' && s[22] == 'r'
    ensures AllDistinct(Window(s, 14, 22))
  {
    var w := Window(s, 14, 22);
    assert w[0] == s[9] && w[1] == s[10] && w[2] == s[11] && w[3] == s[12] && w[4] == s[13] && w[5] == s[14] && w[6] == s[15] && w[7] == s[16] && w[8] == s[17] && w[9] == s[18] && w[10] == s[19] && w[11] == s[20] && w[12] == s[21] && w[13] == s[22];
    forall a, b | 0 <= a < b < 14 ensures w[a] != w[b] {
      if b == 1 { assert a == 0; }
      else if b == 2 { assert a == 0 || a == 1; }
      else if b == 3 { assert a == 0 || a == 1 || a == 2; }
      else if b == 4 { assert a == 0 || a == 1 || a == 2 || a == 3; }
      else if b == 5 { assert a == 0 || a == 1 || a == 2 || a == 3 || a == 4; }
      else if b == 6 { assert a == 0 || a == 1 || a == 2 || a == 3 || a == 4 || a == 5; }
      else if b == 7 { assert a == 0 || a == 1 || a == 2 || a == 3 || a == 4 || a == 5 || a == 6; }
      else if b == 8 { assert a == 0 || a == 1 || a == 2 || a == 3 || a == 4 || a == 5 || a == 6 || a == 7; }
      else if b == 9 { assert a == 0 || a == 1 || a == 2 || a == 3 || a == 4 || a == 5 || a == 6 || a == 7 || a == 8; }
      else if b == 10 { assert a == 0 || a == 1 || a == 2 || a == 3 || a == 4 || a == 5 || a == 6 || a == 7 || a == 8 || a == 9; }
      else if b == 11 { assert a == 0 || a == 1 || a == 2 || a == 3 || a == 4 || a == 5 || a == 6 || a == 7 || a == 8 || a == 9 || a == 10; }
      else if b == 12 { assert a == 0 || a == 1 || a == 2 || a == 3 || a == 4 || a == 5 || a == 6 || a == 7 || a == 8 || a == 9 || a == 10 || a == 11; }
      else if b == 13 { assert a == 0 || a == 1 || a == 2 || a == 3 || a == 4 || a == 5 || a == 6 || a == 7 || a == 8 || a == 9 || a == 10 || a == 11 || a == 12; }
    }
  }

  lemma MessageBefore3(s: string)
    requires |s| >= 23
    requires s[0] == 'n' && s[1] == 'p' && s[2] == 'p' && s[3] == 'd' && s[4] == 'v' && s[5] == 'j' && s[6] == 't' && s[7] == 'h' && s[8] == 'q' && s[9] == 'l' && s[10] == 'd' && s[11] == 'p' && s[12] == 'w' && s[13] == 'n' && s[14] == 'c' && s[15] == 'q' && s[16] == 's' && s[17] == 'z' && s[18] == 'v' && s[19] == 'f' && s[20] == 't' && s[21] == 'b' && s[22] == 'r'
    ensures forall j :: 13 <= j < 22 ==> !AllDistinct(Window(s, 14, j))
  {
    Repeats(s, 14, 13, 1, 2);
    Repeats(s, 14, 14, 0, 1);
    Repeats(s, 14, 15, 1, 8);
    Repeats(s, 14, 16, 0, 7);
    Repeats(s, 14, 17, 4, 11);
    Repeats(s, 14, 18, 3, 10);
    Repeats(s, 14, 19, 2, 9);
    Repeats(s, 14, 20, 1, 8);
    Repeats(s, 14, 21, 0, 7);
    forall j | 13 <= j < 22 ensures !AllDistinct(Window(s, 14, j)) {
      assert j == 13 || j == 14 || j == 15 || j == 16 || j == 17 || j == 18 || j == 19 || j == 20 || j == 21;
    }
  }

  /** Example 3 of the test suite, "nppdvjthqldpwncqszvftbrmjlhg": any input that begins with its
      first 23 characters has its start-of-message marker after 23 characters,
      whether or not the first full window is examined. */
  lemma MessageExample3(s: string)
    requires |s| >= 23
    requires s[0] == 'n' && s[1] == 'p' && s[2] == 'p' && s[3] == 'd' && s[4] == 'v' && s[5] == 'j' && s[6] == 't' && s[7] == 'h' && s[8] == 'q' && s[9] == 'l' && s[10] == 'd' && s[11] == 'p' && s[12] == 'w' && s[13] == 'n' && s[14] == 'c' && s[15] == 'q' && s[16] == 's' && s[17] == 'z' && s[18] == 'v' && s[19] == 'f' && s[20] == 't' && s[21] == 'b' && s[22] == 'r'
    ensures FirstMarker(s, 14, 13) == Some(23)
    ensures FirstMarker(s, 14, 14) == Some(23)
  {
    MessageWindow3(s);
    MessageBefore3(s);
    FirstMarkerFound(s, 14, 13, 22);
    FirstMarkerFound(s, 14, 14, 22);
  }

  lemma PacketWindow4(s: string)
    requires |s| >= 10
    requires s[0] == 'n' && s[1] == 'z' && s[2] == 'n' && s[3] == 'r' && s[4] == 'n' && s[5] == 'f' && s[6] == 'r' && s[7] == 'f' && s[8] == 'n' && s[9] == 't'
    ensures AllDistinct(Window(s, 4, 9))
  {
    var w := Window(s, 4, 9);
    assert w[0] == s[6] && w[1] == s[7] && w[2] == s[8] && w[3] == s[9];
    forall a, b | 0 <= a < b < 4 ensures w[a] != w[b] {
      if b == 1 { assert a == 0; }
      else if b == 2 { assert a == 0 || a == 1; }
      else if b == 3 { assert a == 0 || a == 1 || a == 2; }
    }
  }

  lemma PacketBefore4(s: string)
    requires |s| >= 10
    requires s[0] == 'n' && s[1] == 'z' && s[2] == 'n' && s[3] == 'r' && s[4] == 'n' && s[5] == 'f' && s[6] == 'r' && s[7] == 'f' && s[8] == 'n' && s[9] == 't'
    ensures forall j :: 3 <= j < 9 ==> !AllDistinct(Window(s, 4, j))
  {
    Repeats(s, 4, 3, 0, 2);
    Repeats(s, 4, 4, 1, 3);
    Repeats(s, 4, 5, 0, 2);
    Repeats(s, 4, 6, 0, 3);
    Repeats(s, 4, 7, 1, 3);
    Repeats(s, 4, 8, 0, 2);
    forall j | 3 <= j < 9 ensures !AllDistinct(Window(s, 4, j)) {
      assert j == 3 || j == 4 || j == 5 || j == 6 || j == 7 || j == 8;
    }
  }

  /** Example 4 of the test suite, "nznrnfrfntjfmvfwmzdfjlvtqnbhcprsg": any input that begins with its
      first 10 characters has its start-of-packet marker after 10 characters,
      whether or not the first full window is examined. */
  lemma PacketExample4(s: string)
    requires |s| >= 10
    requires s[0] == 'n' && s[1] == 'z' && s[2] == 'n' && s[3] == 'r' && s[4] == 'n' && s[5] == 'f' && s[6] == 'r' && s[7] == 'f' && s[8] == 'n' && s[9] == 't'
    ensures FirstMarker(s, 4, 3) == Some(10)
    ensures FirstMarker(s, 4, 4) == Some(10)
  {
    PacketWindow4(s);
    PacketBefore4(s);
    FirstMarkerFound(s, 4, 3, 9);
    FirstMarkerFound(s, 4, 4, 9);
  }

  lemma MessageWindow4(s: string)
    requires |s| >= 29
    requires s[0] == 'n' && s[1] == 'z' && s[2] == 'n' && s[3] == 'r' && s[4] == 'n' && s[5] == 'f' && s[6] == 'r' && s[7] == 'f' && s[8] == 'n' && s[9] == 't' && s[10] == 'j' && s[11] == 'f' && s[12] == 'm' && s[13] == 'v' && s[14] == 'f' && s[15] == 'w' && s[16] == 'm' && s[17] == 'z' && s[18] == 'd' && s[19] == 'f' && s[20] == 'j' && s[21] == 'l' && s[22] == 'v' && s[23] == 't' && s[24] == 'q' && s[25] == 'n' && s[26] == 'b' && s[27] == 'h' && s[28] == 'c'
    ensures AllDistinct(Window(s, 14, 28))
  {
    var w := Window(s, 14, 28);
    assert w[0] == s[15] && w[1] == s[16] && w[2] == s[17] && w[3] == s[18] && w[4] == s[19] && w[5] == s[20] && w[6] == s[21] && w[7] == s[22] && w[8] == s[23] && w[9] == s[24] && w[10] == s[25] && w[11] == s[26] && w[12] == s[27] && w[13] == s[28];
    forall a, b | 0 <= a < b < 14 ensures w[a] != w[b] {
      if b == 1 { assert a == 0; }
      else if b == 2 { assert a == 0 || a == 1; }
      else if b == 3 { assert a == 0 || a == 1 || a == 2; }
      else if b == 4 { assert a == 0 || a == 1 || a == 2 || a == 3; }
      else if b == 5 { assert a == 0 || a == 1 || a == 2 || a == 3 || a == 4; }
      else if b == 6 { assert a == 0 || a == 1 || a == 2 || a == 3 || a == 4 || a == 5; }
      else if b == 7 { assert a == 0 || a == 1 || a == 2 || a == 3 || a == 4 || a == 5 || a == 6; }
      else if b == 8 { assert a == 0 || a == 1 || a == 2 || a == 3 || a == 4 || a == 5 || a == 6 || a == 7; }
      else if b == 9 { assert a == 0 || a == 1 || a == 2 || a == 3 || a == 4 || a == 5 || a == 6 || a == 7 || a == 8; }
      else if b == 10 { assert a == 0 || a == 1 || a == 2 || a == 3 || a == 4 || a == 5 || a == 6 || a == 7 || a == 8 || a == 9; }
      else if b == 11 { assert a == 0 || a == 1 || a == 2 || a == 3 || a == 4 || a == 5 || a == 6 || a == 7 || a == 8 || a == 9 || a == 10; }
      else if b == 12 { assert a == 0 || a == 1 || a == 2 || a == 3 || a == 4 || a == 5 || a == 6 || a == 7 || a == 8 || a == 9 || a == 10 || a == 11; }
      else if b == 13 { assert a == 0 || a == 1 || a == 2 || a == 3 || a == 4 || a == 5 || a == 6 || a == 7 || a == 8 || a == 9 || a == 10 || a == 11 || a == 12; }
    }
  }

  lemma MessageBefore4(s: string)
    requires |s| >= 29
    requires s[0] == 'n' && s[1] == 'z' && s[2] == 'n' && s[3] == 'r' && s[4] == 'n' && s[5] == 'f' && s[6] == 'r' && s[7] == 'f' && s[8] == 'n' && s[9] == 't' && s[10] == 'j' && s[11] == 'f' && s[12] == 'm' && s[13] == 'v' && s[14] == 'f' && s[15] == 'w' && s[16] == 'm' && s[17] == 'z' && s[18] == 'd' && s[19] == 'f' && s[20] == 'j' && s[21] == 'l' && s[22] == 'v' && s[23] == 't' && s[24] == 'q' && s[25] == 'n' && s[26] == 'b' && s[27] == 'h' && s[28] == 'c'
    ensures forall j :: 13 <= j < 28 ==> !AllDistinct(Window(s, 14, j))
  {
    MessageBefore4Low(s);
    MessageBefore4High(s);
  }

  lemma MessageBefore4Low(s: string)
    requires |s| >= 29
    requires s[0] == 'n' && s[1] == 'z' && s[2] == 'n' && s[3] == 'r' && s[4] == 'n' && s[5] == 'f' && s[6] == 'r' && s[7] == 'f' && s[8] == 'n' && s[9] == 't' && s[10] == 'j' && s[11] == 'f' && s[12] == 'm' && s[13] == 'v' && s[14] == 'f' && s[15] == 'w' && s[16] == 'm' && s[17] == 'z' && s[18] == 'd' && s[19] == 'f' && s[20] == 'j' && s[21] == 'l' && s[22] == 'v' && s[23] == 't' && s[24] == 'q' && s[25] == 'n' && s[26] == 'b' && s[27] == 'h' && s[28] == 'c'
    ensures forall j :: 13 <= j < 21 ==> !AllDistinct(Window(s, 14, j))
  {
    Repeats(s, 14, 13, 0, 2);
    Repeats(s, 14, 14, 1, 3);
    Repeats(s, 14, 15, 0, 2);
    Repeats(s, 14, 16, 0, 3);
    Repeats(s, 14, 17, 1, 3);
    Repeats(s, 14, 18, 0, 2);
    Repeats(s, 14, 19, 1, 5);
    Repeats(s, 14, 20, 0, 4);
    forall j | 13 <= j < 21 ensures !AllDistinct(Window(s, 14, j)) {
      assert j == 13 || j == 14 || j == 15 || j == 16 || j == 17 || j == 18 || j == 19 || j == 20;
    }
  }

  lemma MessageBefore4High(s: string)
    requires |s| >= 29
    requires s[0] == 'n' && s[1] == 'z' && s[2] == 'n' && s[3] == 'r' && s[4] == 'n' && s[5] == 'f' && s[6] == 'r' && s[7] == 'f' && s[8] == 'n' && s[9] == 't' && s[10] == 'j' && s[11] == 'f' && s[12] == 'm' && s[13] == 'v' && s[14] == 'f' && s[15] == 'w' && s[16] == 'm' && s[17] == 'z' && s[18] == 'd' && s[19] == 'f' && s[20] == 'j' && s[21] == 'l' && s[22] == 'v' && s[23] == 't' && s[24] == 'q' && s[25] == 'n' && s[26] == 'b' && s[27] == 'h' && s[28] == 'c'
    ensures forall j :: 21 <= j < 28 ==> !AllDistinct(Window(s, 14, j))
  {
    Repeats(s, 14, 21, 3, 6);
    Repeats(s, 14, 22, 2, 5);
    Repeats(s, 14, 23, 1, 4);
    Repeats(s, 14, 24, 0, 3);
    Repeats(s, 14, 25, 0, 4);
    Repeats(s, 14, 26, 1, 6);
    Repeats(s, 14, 27, 0, 5);
    forall j | 21 <= j < 28 ensures !AllDistinct(Window(s, 14, j)) {
      assert j == 21 || j == 22 || j == 23 || j == 24 || j == 25 || j == 26 || j == 27;
    }
  }

  /** Example 4 of the test suite, "nznrnfrfntjfmvfwmzdfjlvtqnbhcprsg": any input that begins with its
      first 29 characters has its start-of-message marker after 29 characters,
      whether or not the first full window is examined. */
  lemma MessageExample4(s: string)
    requires |s| >= 29
    requires s[0] == 'n' && s[1] == 'z' && s[2] == 'n' && s[3] == 'r' && s[4] == 'n' && s[5] == 'f' && s[6] == 'r' && s[7] == 'f' && s[8] == 'n' && s[9] == 't' && s[10] == 'j' && s[11] == 'f' && s[12] == 'm' && s[13] == 'v' && s[14] == 'f' && s[15] == 'w' && s[16] == 'm' && s[17] == 'z' && s[18] == 'd' && s[19] == 'f' && s[20] == 'j' && s[21] == 'l' && s[22] == 'v' && s[23] == 't' && s[24] == 'q' && s[25] == 'n' && s[26] == 'b' && s[27] == 'h' && s[28] == 'c'
    ensures FirstMarker(s, 14, 13) == Some(29)
    ensures FirstMarker(s, 14, 14) == Some(29)
  {
    MessageWindow4(s);
    MessageBefore4(s);
    FirstMarkerFound(s, 14, 13, 28);
    FirstMarkerFound(s, 14, 14, 28);
  }

  lemma PacketWindow5(s: string)
    requires |s| >= 11
    requires s[0] == 'z' && s[1] == 'c' && s[2] == 'f' && s[3] == 'z' && s[4] == 'f' && s[5] == 'w' && s[6] == 'z' && s[7] == 'z' && s[8] == 'q' && s[9] == 'f' && s[10] == 'r'
    ensures AllDistinct(Window(s, 4, 10))
  {
    var w := Window(s, 4, 10);
    assert w[0] == s[7] && w[1] == s[8] && w[2] == s[9] && w[3] == s[10];
    forall a, b | 0 <= a < b < 4 ensures w[a] != w[b] {
      if b == 1 { assert a == 0; }
      else if b == 2 { assert a == 0 || a == 1; }
      else if b == 3 { assert a == 0 || a == 1 || a == 2; }
    }
  }

  lemma PacketBefore5(s: string)
    requires |s| >= 11
    requires s[0] == 'z' && s[1] == 'c' && s[2] == 'f' && s[3] == 'z' && s[4] == 'f' && s[5] == 'w' && s[6] == 'z' && s[7] == 'z' && s[8] == 'q' && s[9] == 'f' && s[10] == 'r'
    ensures forall j :: 3 <= j < 10 ==> !AllDistinct(Window(s, 4, j))
  {
    Repeats(s, 4, 3, 0, 3);
    Repeats(s, 4, 4, 1, 3);
    Repeats(s, 4, 5, 0, 2);
    Repeats(s, 4, 6, 0, 3);
    Repeats(s, 4, 7, 2, 3);
    Repeats(s, 4, 8, 1, 2);
    Repeats(s, 4, 9, 0, 1);
    forall j | 3 <= j < 10 ensures !AllDistinct(Window(s, 4, j)) {
      assert j == 3 || j == 4 || j == 5 || j == 6 || j == 7 || j == 8 || j == 9;
    }
  }

  /** Example 5 of the test suite, "zcfzfwzzqfrljwzlrfnpqdbhtmscgvjw": any input that begins with its
      first 11 characters has its start-of-packet marker after 11 characters,
      whether or not the first full window is examined. */
  lemma PacketExample5(s: string)
    requires |s| >= 11
    requires s[0] == 'z' && s[1] == 'c' && s[2] == 'f' && s[3] == 'z' && s[4] == 'f' && s[5] == 'w' && s[6] == 'z' && s[7] == 'z' && s[8] == 'q' && s[9] == 'f' && s[10] == 'r'
    ensures FirstMarker(s, 4, 3) == Some(11)
    ensures FirstMarker(s, 4, 4) == Some(11)
  {
    PacketWindow5(s);
    PacketBefore5(s);
    FirstMarkerFound(s, 4, 3, 10);
    FirstMarkerFound(s, 4, 4, 10);
  }

  lemma MessageWindow5(s: string)
    requires |s| >= 26
    requires s[0] == 'z' && s[1] == 'c' && s[2] == 'f' && s[3] == 'z' && s[4] == 'f' && s[5] == 'w' && s[6] == 'z' && s[7] == 'z' && s[8] == 'q' && s[9] == 'f' && s[10] == 'r' && s[11] == 'l' && s[12] == 'j' && s[13] == 'w' && s[14] == 'z' && s[15] == 'l' && s[16] == 'r' && s[17] == 'f' && s[18] == 'n' && s[19] == 'p' && s[20] == 'q' && s[21] == 'd' && s[22] == 'b' && s[23] == 'h' && s[24] == 't' && s[25] == 'm'
    ensures AllDistinct(Window(s, 14, 25))
  {
    var w := Window(s, 14, 25);
    assert w[0] == s[12] && w[1] == s[13] && w[2] == s[14] && w[3] == s[15] && w[4] == s[16] && w[5] == s[17] && w[6] == s[18] && w[7] == s[19] && w[8] == s[20] && w[9] == s[21] && w[10] == s[22] && w[11] == s[23] && w[12] == s[24] && w[13] == s[25];
    forall a, b | 0 <= a < b < 14 ensures w[a] != w[b] {
      if b == 1 { assert a == 0; }
      else if b == 2 { assert a == 0 || a == 1; }
      else if b == 3 { assert a == 0 || a == 1 || a == 2; }
      else if b == 4 { assert a == 0 || a == 1 || a == 2 || a == 3; }
      else if b == 5 { assert a == 0 || a == 1 || a == 2 || a == 3 || a == 4; }
      else if b == 6 { assert a == 0 || a == 1 || a == 2 || a == 3 || a == 4 || a == 5; }
      else if b == 7 { assert a == 0 || a == 1 || a == 2 || a == 3 || a == 4 || a == 5 || a == 6; }
      else if b == 8 { assert a == 0 || a == 1 || a == 2 || a == 3 || a == 4 || a == 5 || a == 6 || a == 7; }
      else if b == 9 { assert a == 0 || a == 1 || a == 2 || a == 3 || a == 4 || a == 5 || a == 6 || a == 7 || a == 8; }
      else if b == 10 { assert a == 0 || a == 1 || a == 2 || a == 3 || a == 4 || a == 5 || a == 6 || a == 7 || a == 8 || a == 9; }
      else if b == 11 { assert a == 0 || a == 1 || a == 2 || a == 3 || a == 4 || a == 5 || a == 6 || a == 7 || a == 8 || a == 9 || a == 10; }
      else if b == 12 { assert a == 0 || a == 1 || a == 2 || a == 3 || a == 4 || a == 5 || a == 6 || a == 7 || a == 8 || a == 9 || a == 10 || a == 11; }
      else if b == 13 { assert a == 0 || a == 1 || a == 2 || a == 3 || a == 4 || a == 5 || a == 6 || a == 7 || a == 8 || a == 9 || a == 10 || a == 11 || a == 12; }
    }
  }

  lemma MessageBefore5(s: string)
    requires |s| >= 26
    requires s[0] == 'z' && s[1] == 'c' && s[2] == 'f' && s[3] == 'z' && s[4] == 'f' && s[5] == 'w' && s[6] == 'z' && s[7] == 'z' && s[8] == 'q' && s[9] == 'f' && s[10] == 'r' && s[11] == 'l' && s[12] == 'j' && s[13] == 'w' && s[14] == 'z' && s[15] == 'l' && s[16] == 'r' && s[17] == 'f' && s[18] == 'n' && s[19] == 'p' && s[20] == 'q' && s[21] == 'd' && s[22] == 'b' && s[23] == 'h' && s[24] == 't' && s[25] == 'm'
    ensures forall j :: 13 <= j < 25 ==> !AllDistinct(Window(s, 14, j))
  {
    Repeats(s, 14, 13, 0, 3);
    Repeats(s, 14, 14, 1, 3);
    Repeats(s, 14, 15, 0, 2);
    Repeats(s, 14, 16, 0, 3);
    Repeats(s, 14, 17, 2, 3);
    Repeats(s, 14, 18, 1, 2);
    Repeats(s, 14, 19, 0, 1);
    Repeats(s, 14, 20, 0, 7);
    Repeats(s, 14, 21, 3, 7);
    Repeats(s, 14, 22, 2, 6);
    Repeats(s, 14, 23, 1, 5);
    Repeats(s, 14, 24, 0, 4);
    forall j | 13 <= j < 25 ensures !AllDistinct(Window(s, 14, j)) {
      assert j == 13 || j == 14 || j == 15 || j == 16 || j == 17 || j == 18 || j == 19 || j == 20 || j == 21 || j == 22 || j == 23 || j == 24;
    }
  }

  /** Example 5 of the test suite, "zcfzfwzzqfrljwzlrfnpqdbhtmscgvjw": any input that begins with its
      first 26 characters has its start-of-message marker after 26 characters,
      whether or not the first full window is examined. */
  lemma MessageExample5(s: string)
    requires |s| >= 26
    requires s[0] == 'z' && s[1] == 'c' && s[2] == 'f' && s[3] == 'z' && s[4] == 'f' && s[5] == 'w' && s[6] == 'z' && s[7] == 'z' && s[8] == 'q' && s[9] == 'f' && s[10] == 'r' && s[11] == 'l' && s[12] == 'j' && s[13] == 'w' && s[14] == 'z' && s[15] == 'l' && s[16] == 'r' && s[17] == 'f' && s[18] == 'n' && s[19] == 'p' && s[20] == 'q' && s[21] == 'd' && s[22] == 'b' && s[23] == 'h' && s[24] == 't' && s[25] == 'm'
    ensures FirstMarker(s, 14, 13) == Some(26)
    ensures FirstMarker(s, 14, 14) == Some(26)
  {
    MessageWindow5(s);
    MessageBefore5(s);
    FirstMarkerFound(s, 14, 13, 25);
    FirstMarkerFound(s, 14, 14, 25);
  }
}
