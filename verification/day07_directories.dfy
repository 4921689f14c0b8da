/** Day 7: total size of a directory from a shell transcript
    (day-7/src/main.rs). The transcript arrives as already-parsed lines; the
    regular-expression parsing and the printing `main` are left out. */
module Day07Directories {
  import opened Wrappers

  /** One transcript line: `$ cd name`, `$ ls`, `dir name`, or a file
      listing, of which only the size is kept. */
  datatype Line = Cd(name: string) | Ls | Directory(name: string) | File(size: nat)

  /** `Calculation`: the lines not yet consumed and the size computed. */
  datatype Calculation = Calculation(rest: seq<Line>, size: nat)

  /** `calculate_size`: the queue must start with `$ ls`; the listing is then
      consumed until the matching `$ cd ..`. Every panic of the source
      (no `ls` first, running out of lines, an `ls` inside the listing) is an
      `Err`. On success fewer lines remain than were given. */
  function CalculateSize(lines: seq<Line>): (r: Result<Calculation>)
    ensures (|lines| == 0 || lines[0] != Ls) ==> r.Err?
    ensures r.Ok? ==> |r.value.rest| < |lines|
    decreases |lines|, 1
  {
    if |lines| == 0 || lines[0] != Ls then Err("Did not see ls")
    else ListingLoop(lines[1..], 0)
  }

  /** The `loop` of `calculate_size` with `current_size` as `acc`. */
  function ListingLoop(lines: seq<Line>, acc: nat): (r: Result<Calculation>)
    ensures r.Ok? ==> |r.value.rest| < |lines|
    ensures r.Ok? ==> r.value.size >= acc
    decreases |lines|, 0
  {
    if |lines| == 0 then Err("unexpected end of transcript")
    else
      match lines[0]
      case Cd(name) =>
        if name == ".." then Ok(Calculation(lines[1..], acc))
        else
          (match CalculateSize(lines[1..])
           case Err(e) => Err(e)
           case Ok(sub) =>
             ListingLoop(sub.rest, acc + sub.size))
      case File(size) => ListingLoop(lines[1..], acc + size)
      case Directory(_) => ListingLoop(lines[1..], acc)
      case Ls => Err("unexpected ls")
  }

  /** The error cases of `calculate_size`, stated one by one. */
  lemma ListingErrors(lines: seq<Line>, acc: nat)
    ensures ListingLoop([], acc).Err?
    ensures ListingLoop([Ls] + lines, acc).Err?
    ensures CalculateSize([]).Err?
    ensures |lines| > 0 && lines[0] != Ls ==> CalculateSize(lines).Err?
  {
    assert ([Ls] + lines)[0] == Ls;
  }

  /** A file line adds its size, a `dir` line adds nothing, and `$ cd ..`
      returns at once with the remaining lines. */
  lemma ListingSteps(rest: seq<Line>, acc: nat, size: nat, name: string)
    ensures ListingLoop([File(size)] + rest, acc) == ListingLoop(rest, acc + size)
    ensures ListingLoop([Directory(name)] + rest, acc) == ListingLoop(rest, acc)
    ensures ListingLoop([Cd("..")] + rest, acc) == Ok(Calculation(rest, acc))
  {
    assert ([File(size)] + rest)[1..] == rest;
    assert ([Directory(name)] + rest)[1..] == rest;
    assert ([Cd("..")] + rest)[1..] == rest;
  }

  /** `$ cd name` (other than `..`) computes the subdirectory's size from
      the following lines and carries on with what that leaves. */
  lemma ListingDescends(name: string, rest: seq<Line>, acc: nat)
    requires name != ".."
    ensures CalculateSize(rest).Err? ==> ListingLoop([Cd(name)] + rest, acc).Err?
    ensures CalculateSize(rest).Ok? ==>
      ListingLoop([Cd(name)] + rest, acc)
        == ListingLoop(CalculateSize(rest).value.rest, acc + CalculateSize(rest).value.size)
  {
    var lines := [Cd(name)] + rest;
    assert lines[0] == Cd(name) && lines[1..] == rest;
  }

  // ---------------------------------------------------------------------------
  // A directory tree and the transcript that explores it depth first.

  datatype Entry = FileEntry(size: nat) | DirEntry(name: string, contents: Dir)
  datatype Dir = Dir(entries: seq<Entry>)

  /** Total size of all files below `d`. */
  function TotalSize(d: Dir): nat
    decreases d, |d.entries| + 1
  {
    EntriesSize(d, 0)
  }

  function EntriesSize(d: Dir, k: nat): nat
    decreases d, |d.entries| - k
  {
    if k >= |d.entries| then 0
    else
      (match d.entries[k]
       case FileEntry(size) => size
       case DirEntry(_, sub) => TotalSize(sub))
      + EntriesSize(d, k + 1)
  }

  /** No directory below `d` is called `..`, which would end its parent's
      listing instead of opening a subdirectory. */
  predicate WellNamed(d: Dir)
    decreases d, |d.entries| + 1
  {
    EntriesWellNamed(d, 0)
  }

  predicate EntriesWellNamed(d: Dir, k: nat)
    decreases d, |d.entries| - k
  {
    k >= |d.entries| ||
    ((match d.entries[k]
      case FileEntry(_) => true
      case DirEntry(name, sub) => name != ".." && WellNamed(sub))
     && EntriesWellNamed(d, k + 1))
  }

  /** The `ls` output for `entries[k..]`. */
  function ListedLines(d: Dir, k: nat): seq<Line>
    decreases |d.entries| - k
  {
    if k >= |d.entries| then []
    else
      (match d.entries[k]
       case FileEntry(size) => [File(size)]
       case DirEntry(name, _) => [Directory(name)])
      + ListedLines(d, k + 1)
  }

  /** `$ ls`, the listing, a visit to every subdirectory, then `$ cd ..`. */
  function Transcript(d: Dir): seq<Line>
    decreases d, |d.entries| + 1
  {
    [Ls] + ListedLines(d, 0) + Visits(d, 0) + [Cd("..")]
  }

  function Visits(d: Dir, k: nat): seq<Line>
    decreases d, |d.entries| - k
  {
    if k >= |d.entries| then []
    else
      (match d.entries[k]
       case FileEntry(_) => []
       case DirEntry(name, sub) => [Cd(name)] + Transcript(sub))
      + Visits(d, k + 1)
  }

  function FilesSize(d: Dir, k: nat): nat
    decreases |d.entries| - k
  {
    if k >= |d.entries| then 0
    else (match d.entries[k] case FileEntry(size) => size case DirEntry(_, _) => 0) + FilesSize(d, k + 1)
  }

  function SubdirsSize(d: Dir, k: nat): nat
    decreases d, |d.entries| - k
  {
    if k >= |d.entries| then 0
    else (match d.entries[k] case FileEntry(_) => 0 case DirEntry(_, sub) => TotalSize(sub)) + SubdirsSize(d, k + 1)
  }

  lemma {:induction false} EntriesSizeSplit(d: Dir, k: nat)
    ensures EntriesSize(d, k) == FilesSize(d, k) + SubdirsSize(d, k)
    decreases |d.entries| - k
  {
    if k < |d.entries| {
      EntriesSizeSplit(d, k + 1);
    }
  }

  /** Reading the listing adds exactly the sizes of the files it names. */
  lemma {:induction false} ListedLinesAddFiles(d: Dir, k: nat, tail: seq<Line>, acc: nat)
    ensures ListingLoop(ListedLines(d, k) + tail, acc) == ListingLoop(tail, acc + FilesSize(d, k))
    decreases |d.entries| - k
  {
    if k < |d.entries| {
      var t := ListedLines(d, k + 1) + tail;
      match d.entries[k]
      case FileEntry(size) =>
        assert ListedLines(d, k) + tail == [File(size)] + t by {
          LineAssoc([File(size)], ListedLines(d, k + 1), tail);
        }
        assert ListingLoop([File(size)] + t, acc) == ListingLoop(t, acc + size) by {
          ListingSteps(t, acc, size, "");
        }
        ListedLinesAddFiles(d, k + 1, tail, acc + size);
      case DirEntry(name, _) =>
        assert ListedLines(d, k) + tail == [Directory(name)] + t by {
          LineAssoc([Directory(name)], ListedLines(d, k + 1), tail);
        }
        assert ListingLoop([Directory(name)] + t, acc) == ListingLoop(t, acc) by {
          ListingSteps(t, acc, 0, name);
        }
        ListedLinesAddFiles(d, k + 1, tail, acc);
    } else {
      assert ListedLines(d, k) + tail == tail;
    }
  }

  /** Each visit consumes a subdirectory's whole transcript and adds its
      total size. */
  lemma {:induction false} VisitsAddSubdirs(d: Dir, k: nat, rest: seq<Line>, acc: nat)
    requires EntriesWellNamed(d, k)
    ensures ListingLoop(Visits(d, k) + [Cd("..")] + rest, acc) == Ok(Calculation(rest, acc + SubdirsSize(d, k)))
    decreases d, |d.entries| - k, 1
  {
    if k < |d.entries| {
      var after := Visits(d, k + 1) + [Cd("..")] + rest;
      match d.entries[k]
      case FileEntry(_) =>
        assert Visits(d, k) + [Cd("..")] + rest == after;
        VisitsAddSubdirs(d, k + 1, rest, acc);
      case DirEntry(name, sub) =>
        assert ListingLoop(Visits(d, k) + [Cd("..")] + rest, acc) == ListingLoop(after, acc + TotalSize(sub)) by {
          VisitSubdir(d, k, name, sub, rest, acc);
        }
        VisitsAddSubdirs(d, k + 1, rest, acc + TotalSize(sub));
    } else {
      assert Visits(d, k) + [Cd("..")] + rest == [Cd("..")] + rest;
      ListingSteps(rest, acc, 0, "");
    }
  }

  /** Descending into a subdirectory and back adds its whole size. */
  lemma VisitSubdir(d: Dir, k: nat, name: string, sub: Dir, rest: seq<Line>, acc: nat)
    requires k < |d.entries| && d.entries[k] == DirEntry(name, sub)
    requires name != ".." && WellNamed(sub)
    ensures var after := Visits(d, k + 1) + [Cd("..")] + rest;
      ListingLoop(Visits(d, k) + [Cd("..")] + rest, acc) == ListingLoop(after, acc + TotalSize(sub))
    decreases d, |d.entries| - k, 0
  {
    var after := Visits(d, k + 1) + [Cd("..")] + rest;
    assert Visits(d, k) + [Cd("..")] + rest == [Cd(name)] + (Transcript(sub) + after) by {
      LineRegroup([Cd(name)], Transcript(sub), Visits(d, k + 1), [Cd("..")] + rest);
    }
    TranscriptSize(sub, after);
    ListingDescends(name, Transcript(sub) + after, acc);
  }

  lemma LineRegroup(a: seq<Line>, b: seq<Line>, c: seq<Line>, e: seq<Line>)
    ensures a + b + c + e == a + (b + (c + e))
  {
  }

  lemma LineAssoc(a: seq<Line>, b: seq<Line>, c: seq<Line>)
    ensures a + b + c == a + (b + c)
  {
  }

  /** The partner of `calculate_size`: on the transcript of a directory
      tree followed by anything, it returns the tree's total size and
      exactly the lines that follow the transcript. */
  lemma {:induction false} TranscriptSize(d: Dir, rest: seq<Line>)
    requires WellNamed(d)
    ensures CalculateSize(Transcript(d) + rest) == Ok(Calculation(rest, TotalSize(d)))
    decreases d, |d.entries| + 1
  {
    var listed := ListedLines(d, 0);
    var tail := Visits(d, 0) + [Cd("..")] + rest;
    assert CalculateSize(Transcript(d) + rest) == ListingLoop(listed + tail, 0) by {
      var lines := Transcript(d) + rest;
      assert lines == [Ls] + (listed + tail) by {
        LineRegroup([Ls], listed, Visits(d, 0) + [Cd("..")], rest);
        LineAssoc([Ls], listed, Visits(d, 0));
      }
      assert lines[1..] == listed + tail;
    }
    assert ListingLoop(listed + tail, 0) == ListingLoop(tail, FilesSize(d, 0)) by {
      ListedLinesAddFiles(d, 0, tail, 0);
    }
    VisitsAddSubdirs(d, 0, rest, FilesSize(d, 0));
    EntriesSizeSplit(d, 0);
  }

  /** The leaf-directory test: 584 with no lines left. */
  lemma LeafExample()
    ensures CalculateSize([Ls, File(584), Cd("..")]) == Ok(Calculation([], 584))
  {
    var d := Dir([FileEntry(584)]);
    assert Transcript(d) == [Ls, File(584), Cd("..")];
    assert WellNamed(d);
    TranscriptSize(d, []);
    assert [Ls, File(584), Cd("..")] + [] == [Ls, File(584), Cd("..")];
  }

  /** The nested-directories test: 94853 with no lines left. */
  lemma NestedExample()
    ensures CalculateSize([Ls, Directory("e"), File(29116), File(2557), File(62596),
                           Cd("e"), Ls, File(584), Cd(".."), Cd("..")])
            == Ok(Calculation([], 94853))
  {
    var d := NestedTree;
    NestedTranscript();
    NestedWellNamed();
    NestedSize();
    TranscriptSize(d, []);
    assert Transcript(d) + [] == Transcript(d);
  }

  /** The directory of the example: `e` holding one file, then three files. */
  const NestedTree: Dir := Dir([DirEntry("e", Dir([FileEntry(584)])), FileEntry(29116), FileEntry(2557), FileEntry(62596)])

  lemma NestedTranscript()
    ensures Transcript(NestedTree) == [Ls, Directory("e"), File(29116), File(2557), File(62596),
                                       Cd("e"), Ls, File(584), Cd(".."), Cd("..")]
  {
    var d := NestedTree;
    var e := Dir([FileEntry(584)]);
    assert Transcript(e) == [Ls, File(584), Cd("..")];
    assert ListedLines(d, 4) == [] && Visits(d, 4) == [];
    assert ListedLines(d, 3) == [File(62596)] && Visits(d, 3) == [];
    assert ListedLines(d, 2) == [File(2557), File(62596)] && Visits(d, 2) == [];
    assert ListedLines(d, 1) == [File(29116), File(2557), File(62596)] && Visits(d, 1) == [];
    assert ListedLines(d, 0) == [Directory("e"), File(29116), File(2557), File(62596)];
    assert Visits(d, 0) == [Cd("e"), Ls, File(584), Cd("..")];
  }

  lemma NestedWellNamed()
    ensures WellNamed(NestedTree)
  {
    var d := NestedTree;
    assert WellNamed(Dir([FileEntry(584)]));
    assert EntriesWellNamed(d, 4) && EntriesWellNamed(d, 3) && EntriesWellNamed(d, 2) && EntriesWellNamed(d, 1);
  }

  lemma NestedSize()
    ensures TotalSize(NestedTree) == 94853
  {
    var d := NestedTree;
    assert TotalSize(Dir([FileEntry(584)])) == 584;
    assert EntriesSize(d, 4) == 0 && EntriesSize(d, 3) == 62596 && EntriesSize(d, 2) == 65153;
    assert EntriesSize(d, 1) == 94269;
  }

}
