/** Moving a book, or a folder of books, together with its clipping stores. */
module ClippingMove {
  import opened Bytes
  import opened Card

  const MAX_MOVE_DEPTH := 32
  const NAME_BUFFER := 1024

  /** The stores' suffixes, in the order every phase takes them. */
  const SUFFIXES: seq<Suffix> := [Main, Bak, Tmp, Deleted, MigrateBak]

  datatype Phase = Check | Move | Rollback

  /** What a directory lists. */
  datatype Entry = File(name: string) | Folder(name: string, entries: seq<Entry>)

  /** A book's path before and after the move. */
  datatype Book = Book(from: string, to: string)

  function Join(dir: string, name: string): string {
    (if dir != [] && dir[|dir| - 1] == '/' then dir else dir + "/") + name
  }

  /** One slash in between, whether or not the folder's path ends with one. */
  lemma {:induction false} JoinIs(dir: string, name: string)
    requires dir == [] || dir[|dir| - 1] != '/'
    ensures Join(dir, name) == Join(dir + "/", name) == dir + "/" + name
  {
  }

  predicate IsDot(name: string) {
    name == "." || name == ".."
  }

  lemma {:induction false} DotIs(name: string)
    ensures IsDot(name) <==>
            (|name| == 1 && name[0] == '.') || (|name| == 2 && name[0] == '.' && name[1] == '.')
  {
    assert |name| == 1 && name[0] == '.' ==> name == ".";
    assert |name| == 2 && name[0] == '.' && name[1] == '.' ==> name == "..";
  }

  /** The books below two directories, in listing order. */
  function Books(entries: seq<Entry>, from: string, to: string): seq<Book> {
    if entries == [] then []
    else
      (if IsDot(entries[0].name) then []
       else match entries[0]
         case File(name) => [Book(Join(from, name), Join(to, name))]
         case Folder(name, inner) => Books(inner, Join(from, name), Join(to, name)))
      + Books(entries[1..], from, to)
  }

  /** The listing has no name or depth that stops the traversal. */
  predicate Traversable(entries: seq<Entry>, levels: nat) {
    entries == [] ||
    (&& 0 < |entries[0].name| < NAME_BUFFER
     && (entries[0].Folder? && !IsDot(entries[0].name) ==> levels > 0 && Traversable(entries[0].entries, levels - 1))
     && Traversable(entries[1..], levels))
  }

  // --- The steps of a move ---

  /** One file to rename. */
  datatype Step = Step(src: Path, dst: Path)

  function StepAt(books: seq<Book>, hash: string -> nat, i: nat): Step
    requires i < 5 * |books|
  {
    var book := books[i / 5];
    Step(Sidecar(hash(book.from), SUFFIXES[i % 5]), Sidecar(hash(book.to), SUFFIXES[i % 5]))
  }

  /** No two of the files involved are the same. */
  ghost predicate Distinct(books: seq<Book>, hash: string -> nat) {
    && (forall i, j :: 0 <= i < |books| && 0 <= j < |books| ==> hash(books[i].from) != hash(books[j].to))
    && (forall i, j :: 0 <= i < j < |books| ==> hash(books[i].from) != hash(books[j].from))
    && (forall i, j :: 0 <= i < j < |books| ==> hash(books[i].to) != hash(books[j].to))
  }

  /** Where a file of the original state `was` is now. */
  ghost predicate Placed(fs: Files, was: Files, step: Step, moved: bool) {
    && (step.src in fs <==> step.src in was && !moved)
    && (step.dst in fs <==> step.src in was && moved)
    && (step.src in fs ==> fs[step.src] == was[step.src])
    && (step.dst in fs ==> fs[step.dst] == was[step.src])
  }

  ghost predicate Untouched(fs: Files, was: Files, books: seq<Book>, hash: string -> nat, p: Path) {
    (forall i :: 0 <= i < 5 * |books| ==> p != StepAt(books, hash, i).src && p != StepAt(books, hash, i).dst) ==>
      (p in fs <==> p in was) && (p in fs ==> fs[p] == was[p])
  }

  /** Exactly the files of steps `lo` to `hi` have moved since `was`. */
  ghost predicate Progress(fs: Files, was: Files, books: seq<Book>, hash: string -> nat, lo: nat, hi: nat) {
    && (forall i :: 0 <= i < 5 * |books| ==> Placed(fs, was, StepAt(books, hash, i), lo <= i < hi))
    && (forall p :: Untouched(fs, was, books, hash, p))
  }

  /** Nothing is in the way of the move. */
  ghost predicate Clear(fs: Files, books: seq<Book>, hash: string -> nat) {
    forall i :: 0 <= i < 5 * |books| ==> StepAt(books, hash, i).dst !in fs
  }

  lemma {:induction false} StepsDistinct(books: seq<Book>, hash: string -> nat, i: nat, j: nat)
    requires Distinct(books, hash) && i < 5 * |books| && j < 5 * |books|
    ensures StepAt(books, hash, i).src != StepAt(books, hash, j).dst
    ensures i != j ==> StepAt(books, hash, i).src != StepAt(books, hash, j).src
    ensures i != j ==> StepAt(books, hash, i).dst != StepAt(books, hash, j).dst
  {
    var a, b := i / 5, j / 5;
    assert hash(books[a].from) != hash(books[b].to);
    if a == b && i != j {
      assert i % 5 != j % 5;
    }
  }

  lemma {:induction false} NothingMoved(fs: Files, books: seq<Book>, hash: string -> nat, n: nat)
    requires Clear(fs, books, hash)
    ensures Progress(fs, fs, books, hash, n, n)
  {
  }

  /** When no file counts as moved, the card is as it was. */
  lemma {:induction false} NothingMovedMeansSame(fs: Files, was: Files, books: seq<Book>, hash: string -> nat,
                                                 lo: nat, hi: nat)
    requires Clear(was, books, hash) && Progress(fs, was, books, hash, lo, hi)
    requires lo >= hi || lo >= 5 * |books|
    ensures fs == was
  {
    forall p ensures p in fs <==> p in was
             ensures p in fs && p in was ==> fs[p] == was[p]
    {
      assert Untouched(fs, was, books, hash, p);
      if i :| 0 <= i < 5 * |books| && (p == StepAt(books, hash, i).src || p == StepAt(books, hash, i).dst) {
        assert Placed(fs, was, StepAt(books, hash, i), lo <= i < hi);
      }
    }
    assert fs.Keys == was.Keys;
  }

  /** One rename of a move or of its rollback. */
  lemma {:induction false} StepProgress(fs: Files, was: Files, books: seq<Book>, hash: string -> nat, i: nat, lo: nat,
                                        hi: nat, now: Files, lo': nat, hi': nat)
    requires Distinct(books, hash) && i < 5 * |books| && Progress(fs, was, books, hash, lo, hi)
    requires (lo' == lo && hi' == hi + 1 && i == hi && lo <= hi) || (lo' == lo + 1 && hi' == hi && i == lo)
    requires var step := StepAt(books, hash, i);
             var src, dst := if hi' > hi then step.src else step.dst, if hi' > hi then step.dst else step.src;
             now == if src in fs then (fs - {src})[dst := fs[src]] else fs
    ensures Progress(now, was, books, hash, lo', hi')
  {
    var step := StepAt(books, hash, i);
    forall j | 0 <= j < 5 * |books| ensures Placed(now, was, StepAt(books, hash, j), lo' <= j < hi') {
      StepsDistinct(books, hash, i, j);
      StepsDistinct(books, hash, j, i);
      assert Placed(fs, was, StepAt(books, hash, j), lo <= j < hi);
    }
    forall p ensures Untouched(now, was, books, hash, p) {
      assert Untouched(fs, was, books, hash, p);
    }
  }

  /** How far a phase is when it has taken `n` steps; `hi` is where the move stopped. */
  ghost predicate At(fs: Files, was: Files, books: seq<Book>, hash: string -> nat, phase: Phase, n: nat, hi: nat) {
    Distinct(books, hash) ==>
      match phase
      case Check => fs == was && forall i :: 0 <= i < n && i < 5 * |books| ==> StepAt(books, hash, i).dst !in fs
      case Move => Progress(fs, was, books, hash, 0, n)
      case Rollback => Progress(fs, was, books, hash, n, hi)
  }

  /** One phase for the files of book `k`. `n` counts the steps taken. */
  method MoveStoreFiles(card: Device, hash: string -> nat, phase: Phase, from: string, to: string,
                        ghost books: seq<Book>, ghost k: nat, ghost was: Files, ghost hi: nat)
    returns (ok: bool, ghost n: nat)
    requires card.Valid() && k < |books| && books[k] == Book(from, to)
    requires At(card.files, was, books, hash, phase, 5 * k, hi)
    modifies card
    ensures card.Valid() && card.faults >= old(card.faults)
    ensures phase.Check? ==> card.files == old(card.files)
    ensures 5 * k <= n <= 5 * k + 5 && At(card.files, was, books, hash, phase, n, hi)
    ensures ok ==> n == 5 * k + 5
    ensures !ok ==> card.faults > old(card.faults) || !(Distinct(books, hash) && Clear(was, books, hash))
  {
    n := 5 * k;
    if hash(from) == hash(to) {
      n := 5 * k + 5;
      return true, n;
    }
    var s := 0;
    while s < |SUFFIXES|
      invariant 0 <= s <= 5 && n == 5 * k + s && card.Valid() && card.faults >= old(card.faults)
      invariant phase.Check? ==> card.files == old(card.files)
      invariant At(card.files, was, books, hash, phase, n, hi)
    {
      var oldPath, newPath := Sidecar(hash(from), SUFFIXES[s]), Sidecar(hash(to), SUFFIXES[s]);
      ghost var fs := card.files;
      assert StepAt(books, hash, n) == Step(oldPath, newPath);
      if phase.Check? {
        if newPath in card.files { return false, n; }
      } else {
        var src, dst := if phase.Move? then oldPath else newPath, if phase.Move? then newPath else oldPath;
        if src in card.files {
          ok := card.Rename(src, dst);
          if !ok {
            StepTarget(fs, was, books, hash, phase, n, hi);
            return false, n;
          }
        }
        StepTaken(fs, was, books, hash, phase, n, hi, card.files);
      }
      s := s + 1;
      n := n + 1;
    }
    ok := true;
  }

  lemma {:induction false} StepTaken(fs: Files, was: Files, books: seq<Book>, hash: string -> nat, phase: Phase,
                                     n: nat, hi: nat, now: Files)
    requires n < 5 * |books| && !phase.Check? && At(fs, was, books, hash, phase, n, hi)
    requires var step := StepAt(books, hash, n);
             var src, dst := if phase.Move? then step.src else step.dst, if phase.Move? then step.dst else step.src;
             now == if src in fs then (fs - {src})[dst := fs[src]] else fs
    ensures At(now, was, books, hash, phase, n + 1, hi)
  {
    if Distinct(books, hash) {
      if phase.Move? {
        StepProgress(fs, was, books, hash, n, 0, n, now, 0, n + 1);
      } else {
        StepProgress(fs, was, books, hash, n, n, hi, now, n + 1, hi);
      }
    }
  }

  /** A rename never finds its target taken, so only the device can make it fail. */
  lemma {:induction false} StepTarget(fs: Files, was: Files, books: seq<Book>, hash: string -> nat, phase: Phase,
                                      n: nat, hi: nat)
    requires n < 5 * |books| && !phase.Check? && At(fs, was, books, hash, phase, n, hi)
    ensures var step := StepAt(books, hash, n);
            Distinct(books, hash) && (if phase.Move? then step.src in fs else step.dst in fs) ==>
              if phase.Move? then step.dst !in fs else step.src !in fs
  {
    if Distinct(books, hash) {
      if phase.Move? {
        assert Placed(fs, was, StepAt(books, hash, n), false);
      } else {
        assert Placed(fs, was, StepAt(books, hash, n), n < hi);
      }
    }
  }

  // --- The traversal ---

  /** A directory on the work stack: what is left of its listing, and its path before and after. */
  datatype MoveDirectory = MoveDirectory(entries: seq<Entry>, from: string, to: string)

  /** The books still to visit, the top of the stack first. */
  function Left(stack: seq<MoveDirectory>): seq<Book> {
    if stack == [] then []
    else
      var top := stack[|stack| - 1];
      Books(top.entries, top.from, top.to) + Left(stack[..|stack| - 1])
  }

  function Weight(entries: seq<Entry>): nat {
    if entries == [] then 0
    else (match entries[0] case File(_) => 1 case Folder(_, inner) => 2 + Weight(inner)) + Weight(entries[1..])
  }

  function Work(stack: seq<MoveDirectory>): nat {
    if stack == [] then 0 else 1 + Weight(stack[|stack| - 1].entries) + Work(stack[..|stack| - 1])
  }

  /** No directory on the stack, nor below, holds what stops the traversal. */
  ghost predicate AllTraversable(stack: seq<MoveDirectory>) {
    |stack| <= MAX_MOVE_DEPTH && forall d :: 0 <= d < |stack| ==> Traversable(stack[d].entries, MAX_MOVE_DEPTH - 1 - d)
  }

  lemma {:induction false} TopSplit(below: seq<MoveDirectory>, top: MoveDirectory)
    ensures Left(below + [top]) == Books(top.entries, top.from, top.to) + Left(below)
    ensures Work(below + [top]) == 1 + Weight(top.entries) + Work(below)
  {
    var stack := below + [top];
    assert stack[|stack| - 1] == top && stack[..|stack| - 1] == below;
  }

  /** The directory once its first entry is taken from the listing. */
  function Rest(top: MoveDirectory): MoveDirectory
    requires top.entries != []
  {
    top.(entries := top.entries[1..])
  }

  /** The directory that is its first entry. */
  function Inner(top: MoveDirectory): MoveDirectory
    requires top.entries != [] && top.entries[0].Folder?
  {
    var entry := top.entries[0];
    MoveDirectory(entry.entries, Join(top.from, entry.name), Join(top.to, entry.name))
  }

  lemma {:induction false} LessWork(below: seq<MoveDirectory>, top: MoveDirectory)
    requires top.entries != []
    ensures Work(below + [Rest(top)]) < Work(below + [top])
  {
    TopSplit(below, top);
    TopSplit(below, Rest(top));
  }

  lemma {:induction false} SkipDot(below: seq<MoveDirectory>, top: MoveDirectory)
    requires top.entries != [] && IsDot(top.entries[0].name)
    ensures Left(below + [top]) == Left(below + [Rest(top)])
  {
    TopSplit(below, top);
    TopSplit(below, Rest(top));
    assert [] + Books(top.entries[1..], top.from, top.to) == Books(top.entries[1..], top.from, top.to);
  }

  lemma {:induction false} TakeFile(below: seq<MoveDirectory>, top: MoveDirectory)
    requires top.entries != [] && top.entries[0].File? && !IsDot(top.entries[0].name)
    ensures var name := top.entries[0].name;
            Left(below + [top]) == [Book(Join(top.from, name), Join(top.to, name))] + Left(below + [Rest(top)])
  {
    TopSplit(below, top);
    TopSplit(below, Rest(top));
  }

  lemma {:induction false} TakeFolder(below: seq<MoveDirectory>, top: MoveDirectory)
    requires top.entries != [] && top.entries[0].Folder? && !IsDot(top.entries[0].name)
    ensures Left(below + [top]) == Left(below + [Rest(top)] + [Inner(top)])
    ensures Work(below + [Rest(top)] + [Inner(top)]) < Work(below + [top])
  {
    TopSplit(below, top);
    TopSplit(below, Rest(top));
    TopSplit(below + [Rest(top)], Inner(top));
  }

  lemma {:induction false} PopDirectory(below: seq<MoveDirectory>, top: MoveDirectory)
    requires top.entries == []
    ensures Left(below + [top]) == Left(below) && Work(below) < Work(below + [top])
  {
    TopSplit(below, top);
  }

  lemma {:induction false} PopTraversable(below: seq<MoveDirectory>, top: MoveDirectory)
    requires top.entries == [] && |below| < MAX_MOVE_DEPTH
    ensures AllTraversable(below + [top]) <==> AllTraversable(below)
  {
    assert forall d :: 0 <= d < |below| ==> (below + [top])[d] == below[d];
  }

  /** Taking an entry that passes its checks decides nothing else. */
  lemma {:induction false} TakeTraversable(below: seq<MoveDirectory>, top: MoveDirectory)
    requires top.entries != [] && |below| < MAX_MOVE_DEPTH
    ensures var entry := top.entries[0];
            var descend := entry.Folder? && !IsDot(entry.name);
            AllTraversable(below + [top]) <==>
              && 0 < |entry.name| < NAME_BUFFER
              && (descend ==> |below| + 1 < MAX_MOVE_DEPTH)
              && AllTraversable(if descend then below + [Rest(top)] + [Inner(top)] else below + [Rest(top)])
  {
    var stack, rest := below + [top], below + [Rest(top)];
    assert stack[|below|] == top && rest[|below|] == Rest(top);
    assert forall d :: 0 <= d < |below| ==> stack[d] == below[d] && rest[d] == below[d];
    if top.entries[0].Folder? {
      var deeper := rest + [Inner(top)];
      assert deeper[|below| + 1] == Inner(top);
      assert forall d :: 0 <= d < |rest| ==> deeper[d] == rest[d];
    }
  }

  /** What is left to visit are the books from `k` on, and so far the phase went well. */
  ghost predicate OnTheWay(stack: seq<MoveDirectory>, fs: Files, was: Files, books: seq<Book>, hash: string -> nat,
                           phase: Phase, k: nat, hi: nat) {
    && k <= |books| && books[k..] == Left(stack)
    && At(fs, was, books, hash, phase, 5 * k, hi)
  }

  /** Puts a directory on the stack at `depth`. */
  method Push(stack: array<MoveDirectory>, depth: nat, directory: MoveDirectory)
    requires depth < stack.Length
    modifies stack
    ensures stack[..depth + 1] == old(stack[..depth]) + [directory]
  {
    stack[depth] := directory;
  }

  /** Takes the next entry off the directory on top of the stack: a folder goes on top, a book is handed out. */
  method TakeEntry(stack: array<MoveDirectory>, depth: nat) returns (ok: bool, newDepth: nat, book: Option<Book>)
    requires 0 < depth <= stack.Length == MAX_MOVE_DEPTH && stack[depth - 1].entries != []
    modifies stack
    ensures ok ==> newDepth <= MAX_MOVE_DEPTH && Work(stack[..newDepth]) < old(Work(stack[..depth]))
    ensures ok ==> old(Left(stack[..depth])) == (if book.Some? then [book.value] else []) + Left(stack[..newDepth])
    ensures ok ==> (old(AllTraversable(stack[..depth])) <==> AllTraversable(stack[..newDepth]))
    ensures !ok ==> !old(AllTraversable(stack[..depth]))
  {
    ghost var below := stack[..depth - 1];
    var top := stack[depth - 1];
    assert stack[..depth] == below + [top];
    newDepth, book, ok := depth, None, true;
    LessWork(below, top);
    TakeTraversable(below, top);
    var entry := top.entries[0];
    Push(stack, depth - 1, top.(entries := top.entries[1..]));
    if |entry.name| == 0 || |entry.name| >= NAME_BUFFER {
      ok := false;
    } else if IsDot(entry.name) {
      SkipDot(below, top);
      assert [] + Left(below + [Rest(top)]) == Left(below + [Rest(top)]);
    } else if entry.Folder? {
      TakeFolder(below, top);
      ok := depth < MAX_MOVE_DEPTH;
      if ok {
        Push(stack, depth, Inner(top));
        newDepth := depth + 1;
        assert [] + Left(below + [Rest(top)] + [Inner(top)]) == Left(below + [Rest(top)] + [Inner(top)]);
      }
    } else {
      TakeFile(below, top);
      book := Some(Book(Join(top.from, entry.name), Join(top.to, entry.name)));
    }
  }

  lemma {:induction false} NextBook(books: seq<Book>, k: nat, book: Option<Book>, left: seq<Book>)
    requires k <= |books| && books[k..] == (if book.Some? then [book.value] else []) + left
    ensures if book.Some? then k < |books| && books[k] == book.value && books[k + 1..] == left else books[k..] == left
  {
    if book.Some? {
      assert books[k..][0] == books[k] && books[k..][1..] == books[k + 1..];
    } else {
      assert [] + left == left;
    }
  }

  /** Takes the next entry, and checks or moves the sidecars if it is a book. */
  method TakeNext(card: Device, hash: string -> nat, phase: Phase, stack: array<MoveDirectory>, depth: nat,
                  ghost books: seq<Book>, ghost k: nat, ghost was: Files, ghost hi: nat)
    returns (ok: bool, newDepth: nat, ghost newK: nat, ghost n: nat)
    requires card.Valid() && 0 < depth <= stack.Length == MAX_MOVE_DEPTH && stack[depth - 1].entries != []
    requires OnTheWay(stack[..depth], card.files, was, books, hash, phase, k, hi)
    modifies card, stack
    ensures card.Valid() && card.faults >= old(card.faults)
    ensures phase.Check? ==> card.files == old(card.files)
    ensures ok ==> newDepth <= MAX_MOVE_DEPTH && Work(stack[..newDepth]) < old(Work(stack[..depth]))
    ensures ok ==> OnTheWay(stack[..newDepth], card.files, was, books, hash, phase, newK, hi)
    ensures ok ==> (old(AllTraversable(stack[..depth])) <==> AllTraversable(stack[..newDepth]))
    ensures !ok ==> n <= 5 * |books| && At(card.files, was, books, hash, phase, n, hi)
    ensures !ok ==> card.faults > old(card.faults) || !old(AllTraversable(stack[..depth]))
                    || !(Distinct(books, hash) && Clear(was, books, hash))
  {
    var book;
    ok, newDepth, book := TakeEntry(stack, depth);
    newK, n := k, 5 * k;
    if ok {
      NextBook(books, k, book, Left(stack[..newDepth]));
      if book.Some? {
        ok, n := MoveStoreFiles(card, hash, phase, book.value.from, book.value.to, books, k, was, hi);
        newK := k + 1;
      }
    }
  }

  lemma {:induction false} PopFinished(stack: seq<MoveDirectory>, fs: Files, was: Files, books: seq<Book>,
                                       hash: string -> nat,
                    phase: Phase, k: nat, hi: nat)
    requires 0 < |stack| <= MAX_MOVE_DEPTH && stack[|stack| - 1].entries == []
    requires OnTheWay(stack, fs, was, books, hash, phase, k, hi)
    ensures OnTheWay(stack[..|stack| - 1], fs, was, books, hash, phase, k, hi)
    ensures AllTraversable(stack) <==> AllTraversable(stack[..|stack| - 1])
    ensures Work(stack[..|stack| - 1]) < Work(stack)
  {
    var below, top := stack[..|stack| - 1], stack[|stack| - 1];
    assert stack == below + [top];
    PopDirectory(below, top);
    PopTraversable(below, top);
  }

  /** The state between two steps of a phase; `traversable` is what the whole folder was found to be. */
  ghost predicate Visiting(stack: seq<MoveDirectory>, fs: Files, was: Files, books: seq<Book>, hash: string -> nat,
                           phase: Phase, k: nat, hi: nat, traversable: bool) {
    && |stack| <= MAX_MOVE_DEPTH && OnTheWay(stack, fs, was, books, hash, phase, k, hi)
    && (traversable <==> AllTraversable(stack))
  }

  /** Why a phase may stop early. */
  ghost predicate MayStop(faulted: bool, traversable: bool, was: Files, books: seq<Book>, hash: string -> nat) {
    faulted || !traversable || !(Distinct(books, hash) && Clear(was, books, hash))
  }

  /** One step: leaves a finished directory, or takes the next entry of the one on top. */
  method Advance(card: Device, hash: string -> nat, phase: Phase, stack: array<MoveDirectory>, depth: nat,
                 ghost books: seq<Book>, ghost k: nat, ghost was: Files, ghost hi: nat, ghost traversable: bool)
    returns (ok: bool, newDepth: nat, ghost newK: nat, ghost n: nat)
    requires card.Valid() && 0 < depth <= stack.Length == MAX_MOVE_DEPTH
    requires Visiting(stack[..depth], card.files, was, books, hash, phase, k, hi, traversable)
    modifies card, stack
    ensures card.Valid() && card.faults >= old(card.faults)
    ensures phase.Check? ==> card.files == old(card.files)
    ensures ok ==> newDepth <= MAX_MOVE_DEPTH && Work(stack[..newDepth]) < old(Work(stack[..depth]))
    ensures ok ==> Visiting(stack[..newDepth], card.files, was, books, hash, phase, newK, hi, traversable)
    ensures !ok ==> n <= 5 * |books| && At(card.files, was, books, hash, phase, n, hi)
    ensures !ok ==> MayStop(card.faults > old(card.faults), traversable, was, books, hash)
  {
    if stack[depth - 1].entries == [] {
      PopFinished(stack[..depth], card.files, was, books, hash, phase, k, hi);
      assert stack[..depth][..depth - 1] == stack[..depth - 1];
      ok, newDepth, newK, n := true, depth - 1, k, 5 * k;
    } else {
      ok, newDepth, newK, n := TakeNext(card, hash, phase, stack, depth, books, k, was, hi);
    }
  }

  /** Visits everything on the stack. */
  method VisitAll(card: Device, hash: string -> nat, phase: Phase, stack: array<MoveDirectory>, ghost books: seq<Book>,
                  ghost was: Files, ghost hi: nat, ghost traversable: bool) returns (ok: bool, ghost n: nat)
    requires card.Valid() && stack.Length == MAX_MOVE_DEPTH
    requires Visiting(stack[..1], card.files, was, books, hash, phase, 0, hi, traversable)
    modifies card, stack
    ensures card.Valid() && card.faults >= old(card.faults)
    ensures phase.Check? ==> card.files == old(card.files)
    ensures n <= 5 * |books| && At(card.files, was, books, hash, phase, n, hi)
    ensures if ok then n == 5 * |books| && traversable else MayStop(card.faults > old(card.faults), traversable, was,
                                                                    books, hash)
  {
    var depth: nat := 1;
    ghost var k := 0;
    while depth > 0
      invariant depth <= MAX_MOVE_DEPTH && card.Valid() && card.faults >= old(card.faults)
      invariant phase.Check? ==> card.files == old(card.files)
      invariant Visiting(stack[..depth], card.files, was, books, hash, phase, k, hi, traversable)
      decreases Work(stack[..depth])
    {
      ok, depth, k, n := Advance(card, hash, phase, stack, depth, books, k, was, hi, traversable);
      if !ok { return; }
    }
    n := 5 * k;
    assert Left(stack[..0]) == [];
    ok := true;
  }

  /** One phase over a folder, with an explicit stack of directories. */
  method MoveTreeStores(card: Device, hash: string -> nat, entries: seq<Entry>, from: string, to: string, phase: Phase,
                        stack: array<MoveDirectory>, ghost was: Files, ghost hi: nat)
    returns (ok: bool, ghost n: nat)
    requires card.Valid() && stack.Length == MAX_MOVE_DEPTH
    requires At(card.files, was, Books(entries, from, to), hash, phase, 0, hi)
    modifies card, stack
    ensures card.Valid() && card.faults >= old(card.faults)
    ensures phase.Check? ==> card.files == old(card.files)
    ensures n <= 5 * |Books(entries, from, to)| && At(card.files, was, Books(entries, from, to), hash, phase, n, hi)
    ensures ok ==> n == 5 * |Books(entries, from, to)| && Traversable(entries, MAX_MOVE_DEPTH - 1)
    ensures !ok ==> card.faults > old(card.faults) || !Traversable(entries, MAX_MOVE_DEPTH - 1)
                    || !(Distinct(Books(entries, from, to), hash) && Clear(was, Books(entries, from, to), hash))
  {
    n := 0;
    ok := card.Try();
    if !ok { return; }
    stack[0] := MoveDirectory(entries, from, to);
    StartLeft(entries, from, to, stack[..1]);
    ok, n := VisitAll(card, hash, phase, stack, Books(entries, from, to), was, hi,
                      Traversable(entries, MAX_MOVE_DEPTH - 1));
  }

  lemma {:induction false} StartLeft(entries: seq<Entry>, from: string, to: string, stack: seq<MoveDirectory>)
    requires stack == [MoveDirectory(entries, from, to)]
    ensures Left(stack) == Books(entries, from, to)
    ensures Traversable(entries, MAX_MOVE_DEPTH - 1) <==> AllTraversable(stack)
  {
    assert stack == [] + stack;
    TopSplit([], stack[0]);
    assert Books(entries, from, to) + [] == Books(entries, from, to);
  }

  // --- The whole move ---

  /** What is at the path to move. */
  datatype Source = Missing | SingleBook | Directory(entries: seq<Entry>)

  function BooksOf(source: Source, from: string, to: string): seq<Book> {
    match source
    case Missing => []
    case SingleBook => [Book(from, to)]
    case Directory(entries) => Books(entries, from, to)
  }

  method RunPhase(card: Device, hash: string -> nat, source: Source, from: string, to: string, phase: Phase,
                  stack: array<MoveDirectory>, ghost was: Files, ghost hi: nat)
    returns (ok: bool, ghost n: nat)
    requires card.Valid() && stack.Length == MAX_MOVE_DEPTH && !source.Missing?
    requires At(card.files, was, BooksOf(source, from, to), hash, phase, 0, hi)
    modifies card, stack
    ensures card.Valid() && card.faults >= old(card.faults)
    ensures phase.Check? ==> card.files == old(card.files)
    ensures n <= 5 * |BooksOf(source, from, to)| && At(card.files, was, BooksOf(source, from, to), hash, phase, n, hi)
    ensures ok ==> n == 5 * |BooksOf(source, from, to)|
    ensures ok && source.Directory? ==> Traversable(source.entries, MAX_MOVE_DEPTH - 1)
    ensures !ok ==> card.faults > old(card.faults)
                    || (source.Directory? && !Traversable(source.entries, MAX_MOVE_DEPTH - 1))
                    || !(Distinct(BooksOf(source, from, to), hash) && Clear(was, BooksOf(source, from, to), hash))
  {
    if source.Directory? {
      ok, n := MoveTreeStores(card, hash, source.entries, from, to, phase, stack, was, hi);
    } else {
      ok, n := MoveStoreFiles(card, hash, phase, from, to, BooksOf(source, from, to), 0, was, hi);
    }
  }

  /**
   * Moves a book or a folder with its clipping stores. `moved` tells whether the book itself was renamed, and
   * `restored` whether the stores are back where they were after a failure; the source only logs that.
   */
  method MoveBook(card: Device, hash: string -> nat, from: string, to: string, source: Source, targetExists: bool)
    returns (ok: bool, moved: bool, restored: bool)
    requires card.Valid()
    modifies card
    ensures card.Valid() && card.faults >= old(card.faults)
    ensures ok && from != to ==> moved && !targetExists && !source.Missing?
    ensures !ok || from == to ==> !moved
    ensures from == to ==> ok && card.files == old(card.files)
    ensures Distinct(BooksOf(source, from, to), hash) && ok && from != to ==>
      Clear(old(card.files), BooksOf(source, from, to), hash)
      && Progress(card.files, old(card.files), BooksOf(source, from, to), hash, 0, 5 * |BooksOf(source, from, to)|)
    ensures Distinct(BooksOf(source, from, to), hash) && !ok && restored ==> card.files == old(card.files)
    ensures !ok && !restored ==> card.faults > old(card.faults) || !Distinct(BooksOf(source, from, to), hash)
    ensures !ok ==> card.faults > old(card.faults) || targetExists || source.Missing?
                    || (source.Directory? && !Traversable(source.entries, MAX_MOVE_DEPTH - 1))
                    || !Distinct(BooksOf(source, from, to), hash)
                    || !Clear(old(card.files), BooksOf(source, from, to), hash)
  {
    ok, moved, restored := from == to, false, true;
    if from == to || targetExists || source.Missing? { return; }
    ok := card.Try();
    if !ok { return; }
    if source.Directory? {
      ok := card.Try();
      if !ok { return; }
    }
    var stack := new MoveDirectory[MAX_MOVE_DEPTH](_ => MoveDirectory([], "", ""));
    ghost var was, books := card.files, BooksOf(source, from, to);
    ghost var n;
    ok, n := RunPhase(card, hash, source, from, to, Check, stack, was, 0);
    if !ok { return; }
    if Distinct(books, hash) { NothingMoved(was, books, hash, 0); }
    ok, n := RunPhase(card, hash, source, from, to, Move, stack, was, 0);
    if ok {
      moved := card.Try();
      if moved { return; }
    }
    ok := false;
    ghost var last;
    restored, last := RunPhase(card, hash, source, from, to, Rollback, stack, was, n);
    if Distinct(books, hash) && restored {
      NothingMovedMeansSame(card.files, was, books, hash, last, n);
    }
  }

  /** After a successful move every book's files are under the new key, with their contents, and none under the old. */
  lemma {:induction false} MovedMeans(fs: Files, was: Files, books: seq<Book>, hash: string -> nat, k: nat,
                                      suffix: Suffix)
    requires k < |books| && Progress(fs, was, books, hash, 0, 5 * |books|)
    ensures Sidecar(hash(books[k].from), suffix) !in fs
    ensures var src, dst := Sidecar(hash(books[k].from), suffix), Sidecar(hash(books[k].to), suffix);
            (dst in fs <==> src in was) && (dst in fs ==> fs[dst] == was[src])
  {
    var s := match suffix case Main => 0 case Bak => 1 case Tmp => 2 case Deleted => 3 case MigrateBak => 4;
    var i := 5 * k + s;
    assert i / 5 == k && i % 5 == s;
    assert Placed(fs, was, StepAt(books, hash, i), true);
  }

  // --- Why the files are distinct ---

  /** The part of a relative path before its first slash. */
  function FirstName(path: string): string {
    if path == [] || path[0] == '/' then [] else [path[0]] + FirstName(path[1..])
  }

  lemma {:induction false} FirstNameOf(name: string, rest: string)
    requires '/' !in name
    ensures FirstName(name) == name && FirstName(name + "/" + rest) == name
  {
    if name != [] {
      FirstNameOf(name[1..], rest);
      assert (name + "/" + rest)[1..] == name[1..] + "/" + rest;
    }
  }

  /** The books' paths below the directory, without it. */
  function Relative(entries: seq<Entry>): seq<string>
    decreases entries
  {
    if entries == [] then [] else RelativeOf(entries[0]) + Relative(entries[1..])
  }

  function RelativeOf(entry: Entry): seq<string>
    decreases entry
  {
    if IsDot(entry.name) then []
    else match entry
      case File(name) => [name]
      case Folder(name, inner) => Under(name, Relative(inner))
  }

  function Under(name: string, paths: seq<string>): (all: seq<string>)
    ensures |all| == |paths| && forall i :: 0 <= i < |paths| ==> all[i] == name + "/" + paths[i]
  {
    seq(|paths|, i requires 0 <= i < |paths| => name + "/" + paths[i])
  }

  /** What a card's directory guarantees: names are not empty, hold no slash, and are listed once. */
  ghost predicate WellNamed(entries: seq<Entry>) {
    entries == [] ||
    (&& entries[0].name != [] && '/' !in entries[0].name
     && (forall j :: 1 <= j < |entries| ==> entries[j].name != entries[0].name)
     && (entries[0].Folder? ==> WellNamed(entries[0].entries))
     && WellNamed(entries[1..]))
  }

  function NamesOf(entries: seq<Entry>): set<string> {
    set i | 0 <= i < |entries| :: entries[i].name
  }

  lemma {:induction false} StartWithName(entry: Entry, i: nat)
    requires '/' !in entry.name && i < |RelativeOf(entry)|
    ensures FirstName(RelativeOf(entry)[i]) == entry.name
  {
    match entry
    case File(name) => FirstNameOf(name, []);
    case Folder(name, inner) => FirstNameOf(name, Relative(inner)[i]);
  }

  lemma {:induction false} FirstNamesListed(entries: seq<Entry>, i: nat)
    requires WellNamed(entries) && i < |Relative(entries)|
    ensures FirstName(Relative(entries)[i]) in NamesOf(entries)
  {
    var head := RelativeOf(entries[0]);
    if i < |head| {
      StartWithName(entries[0], i);
    } else {
      FirstNamesListed(entries[1..], i - |head|);
      var j :| 0 <= j < |entries| - 1 && entries[1..][j].name == FirstName(Relative(entries)[i]);
      assert entries[j + 1].name in NamesOf(entries);
    }
  }

  lemma {:induction false} UnderDiffers(name: string, a: string, b: string)
    requires a != b
    ensures name + "/" + a != name + "/" + b
  {
    assert (name + "/" + a)[|name| + 1..] == a && (name + "/" + b)[|name| + 1..] == b;
  }

  /** No two books below a directory have the same path. */
  lemma {:induction false} RelativeDistinct(entries: seq<Entry>, i: nat, j: nat)
    requires WellNamed(entries) && i < j < |Relative(entries)|
    ensures Relative(entries)[i] != Relative(entries)[j]
  {
    var head, rest := RelativeOf(entries[0]), Relative(entries[1..]);
    assert Relative(entries) == head + rest;
    if j < |head| {
      var inner := Relative(entries[0].entries);
      RelativeDistinct(entries[0].entries, i, j);
      UnderDiffers(entries[0].name, inner[i], inner[j]);
    } else if i >= |head| {
      RelativeDistinct(entries[1..], i - |head|, j - |head|);
    } else {
      FirstNamesListed(entries[1..], j - |head|);
      StartWithName(entries[0], i);
    }
  }

  function Base(dir: string): string {
    if dir != [] && dir[|dir| - 1] == '/' then dir else dir + "/"
  }

  /** Books `books` lie at the relative paths, below `from` and below `to`. */
  ghost predicate LieAt(books: seq<Book>, relative: seq<string>, from: string, to: string) {
    && |books| == |relative|
    && forall i :: 0 <= i < |relative| ==> books[i] == Book(Base(from) + relative[i], Base(to) + relative[i])
  }

  lemma {:induction false} LieBoth(a: seq<Book>, b: seq<Book>, ra: seq<string>, rb: seq<string>, from: string,
                                   to: string)
    requires LieAt(a, ra, from, to) && LieAt(b, rb, from, to)
    ensures LieAt(a + b, ra + rb, from, to)
  {
  }

  /** A book's path is the directory's followed by its relative path. */
  lemma {:induction false} BooksPaths(entries: seq<Entry>, from: string, to: string)
    requires WellNamed(entries)
    ensures LieAt(Books(entries, from, to), Relative(entries), from, to)
  {
    if entries != [] {
      BooksPaths(entries[1..], from, to);
      var entry, more := entries[0], Books(entries[1..], from, to);
      if IsDot(entry.name) {
        LieBoth([], more, [], Relative(entries[1..]), from, to);
      } else {
        match entry {
          case File(name) =>
            LieBoth([Book(Join(from, name), Join(to, name))], more, [name], Relative(entries[1..]), from, to);
          case Folder(name, inner) =>
            BooksPaths(inner, Join(from, name), Join(to, name));
            BelowFolder(Books(inner, Join(from, name), Join(to, name)), Relative(inner), from, to, name);
            LieBoth(Books(inner, Join(from, name), Join(to, name)), more, Under(name, Relative(inner)),
                    Relative(entries[1..]), from, to);
        }
      }
    }
  }

  /** Paths below a folder, seen from the directory above. */
  lemma {:induction false} BelowFolder(books: seq<Book>, relative: seq<string>, from: string, to: string, name: string)
    requires name != [] && '/' !in name && LieAt(books, relative, Join(from, name), Join(to, name))
    ensures LieAt(books, Under(name, relative), from, to)
  {
    forall i | 0 <= i < |relative|
      ensures books[i] == Book(Base(from) + (name + "/" + relative[i]), Base(to) + (name + "/" + relative[i]))
    {
      BaseOfJoin(from, name, relative[i]);
      BaseOfJoin(to, name, relative[i]);
    }
  }

  lemma {:induction false} BaseOfJoin(dir: string, name: string, rest: string)
    requires name != [] && '/' !in name
    ensures Base(Join(dir, name)) + rest == Base(dir) + (name + "/" + rest)
  {
    var path := Join(dir, name);
    assert path == Base(dir) + name;
    assert path[|path| - 1] == name[|name| - 1] && name[|name| - 1] in name;
  }

  ghost predicate Injective(hash: string -> nat) {
    forall a, b :: hash(a) == hash(b) ==> a == b
  }

  /** With an injective hash, and nothing yet under the target, a folder's stores never meet. */
  lemma {:induction false} FolderIsDistinct(entries: seq<Entry>, from: string, to: string, hash: string -> nat)
    requires WellNamed(entries) && Injective(hash)
    requires forall i :: 0 <= i < |Books(entries, from, to)| ==> !(Base(to) <= Books(entries, from, to)[i].from)
    ensures Distinct(Books(entries, from, to), hash)
  {
    var books := Books(entries, from, to);
    BooksPaths(entries, from, to);
    forall i, j | 0 <= i < |books| && 0 <= j < |books| ensures books[i].from != books[j].to {
      assert Base(to) <= books[j].to;
    }
    forall i, j | 0 <= i < j < |books| ensures books[i].from != books[j].from && books[i].to != books[j].to {
      RelativeDistinct(entries, i, j);
      DistinctAfter(Base(from), Relative(entries)[i], Relative(entries)[j]);
      DistinctAfter(Base(to), Relative(entries)[i], Relative(entries)[j]);
    }
  }

  lemma {:induction false} DistinctAfter(prefix: string, a: string, b: string)
    requires a != b
    ensures prefix + a != prefix + b
  {
    assert (prefix + a)[|prefix|..] == a && (prefix + b)[|prefix|..] == b;
  }
}
