/** The SD card, a map from path to bytes, and the heap: every operation on them may fail. */
module Card {
  import opened Bytes

  /** The five files of a clipping store; the source spells them as suffixes of one path. */
  datatype Suffix = Main | Bak | Tmp | Deleted | MigrateBak

  /** `/.crosspoint/clippings/epub_<key>.bin<suffix>`, where `key` is the hash of the book's path. */
  datatype Path = Sidecar(key: nat, suffix: Suffix)

  type Files = map<Path, Data>

  /** The two differ at most in `p`. */
  ghost predicate OnlyAt(fs: Files, was: Files, p: Path) {
    forall q :: q != p ==> (q in fs <==> q in was) && (q in fs ==> fs[q] == was[q])
  }

  /**
   * The mounted card. `trace` lists every state it has been in, oldest first: a power cut leaves the card
   * in the state the trace ended with at that moment, so a statement about all states added by a call is a
   * statement about a cut anywhere in that call, in the middle of a write included. `faults` counts the
   * failures that nothing but the device explains.
   */
  class Device {
    var files: Files
    ghost var trace: seq<Files>
    ghost var faults: nat

    ghost predicate Valid()
      reads this
    {
      trace != [] && trace[|trace| - 1] == files
    }

    constructor (files: Files)
      ensures Valid() && this.files == files && trace == [files] && faults == 0
    {
      this.files := files;
      trace := [files];
      faults := 0;
    }

    /** An attempt the device may refuse. */
    method Try() returns (ok: bool)
      modifies this`faults
      ensures faults == if ok then old(faults) else old(faults) + 1
    {
      ok := *;
      if !ok {
        faults := faults + 1;
      }
    }

    /** Moves a file in one step. A file already at `to` may make it fail or be replaced. */
    method Rename(from: Path, to: Path) returns (ok: bool)
      requires Valid()
      modifies this
      ensures Valid() && faults >= old(faults)
      ensures ok ==> from in old(files) && files == (old(files) - {from})[to := old(files)[from]]
      ensures ok ==> trace == old(trace) + [files]
      ensures !ok ==> files == old(files) && trace == old(trace)
      ensures !ok && from in files && to !in files ==> faults > old(faults)
    {
      ok := Try();
      if from !in files {
        ok := false;
      }
      if ok {
        files := (files - {from})[to := files[from]];
        trace := trace + [files];
      }
    }

    method Remove(p: Path) returns (ok: bool)
      requires Valid()
      modifies this
      ensures Valid() && faults >= old(faults)
      ensures ok ==> p in old(files) && files == old(files) - {p} && trace == old(trace) + [files]
      ensures !ok ==> files == old(files) && trace == old(trace)
      ensures !ok && p in files ==> faults > old(faults)
    {
      ok := Try();
      if p !in files {
        ok := false;
      }
      if ok {
        files := files - {p};
        trace := trace + [files];
      }
    }

    /** Opens `p` for writing and makes it empty. */
    method Create(p: Path) returns (ok: bool)
      requires Valid()
      modifies this
      ensures Valid() && faults >= old(faults)
      ensures ok ==> files == old(files)[p := []] && trace == old(trace) + [files]
      ensures !ok ==> files == old(files) && trace == old(trace) && faults > old(faults)
    {
      ok := Try();
      if ok {
        files := files[p := []];
        trace := trace + [files];
      }
    }

    /** Opens `p` for appending, creating it empty when it is not there. */
    method OpenAppend(p: Path) returns (ok: bool)
      requires Valid()
      modifies this
      ensures Valid() && faults >= old(faults)
      ensures ok && p !in old(files) ==> files == old(files)[p := []] && trace == old(trace) + [files]
      ensures !ok || p in old(files) ==> files == old(files) && trace == old(trace)
      ensures !ok ==> faults > old(faults)
    {
      ok := Try();
      if ok && p !in files {
        files := files[p := []];
        trace := trace + [files];
      }
    }

    /** Writes at the end of `p`, one byte after the other, and may stop after any of them. */
    method Append(p: Path, data: Data) returns (ok: bool)
      requires Valid() && p in files
      modifies this
      ensures Valid() && faults >= old(faults)
      ensures exists n :: 0 <= n <= |data| && Appended(old(files), old(trace), files, trace, p, data, n)
                       && (ok <==> n == |data|)
      ensures !ok ==> faults > old(faults)
    {
      var n := 0;
      ok := true;
      assert files[p := files[p] + data[..0]] == files by { assert files[p] + data[..0] == files[p]; }
      while n < |data| && ok
        invariant Valid() && faults >= old(faults)
        invariant 0 <= n <= |data| && (!ok ==> n < |data| && faults > old(faults))
        invariant Appended(old(files), old(trace), files, trace, p, data, n)
        decreases |data| - n, ok
      {
        ok := Try();
        if ok {
          assert data[..n + 1] == data[..n] + [data[n]];
          assert old(files)[p] + data[..n] + [data[n]] == old(files)[p] + data[..n + 1];
          files := files[p := files[p] + [data[n]]];
          assert files == old(files)[p := old(files)[p] + data[..n + 1]];
          trace := trace + [files];
          n := n + 1;
        }
      }
    }

    method Truncate(p: Path, size: nat) returns (ok: bool)
      requires Valid() && p in files && size <= |files[p]|
      modifies this
      ensures Valid() && faults >= old(faults)
      ensures ok ==> files == old(files)[p := old(files)[p][..size]] && trace == old(trace) + [files]
      ensures !ok ==> files == old(files) && trace == old(trace) && faults > old(faults)
    {
      ok := Try();
      if ok {
        files := files[p := files[p][..size]];
        trace := trace + [files];
      }
    }

    /** Reads exactly `count` bytes from `position`, or nothing. */
    method Read(p: Path, position: nat, count: nat) returns (r: Option<Data>)
      requires p in files
      modifies this`faults
      ensures faults >= old(faults)
      ensures r.Some? ==> position + count <= |files[p]| && r.value == files[p][position..position + count]
      ensures r.None? && position + count <= |files[p]| ==> faults > old(faults)
    {
      var ok := Try();
      if ok && position + count <= |files[p]| {
        r := Some(files[p][position..position + count]);
      } else {
        r := None;
      }
    }
  }

  /** The first `n` bytes of `data` went to `p`, through each shorter prefix. */
  ghost predicate Appended(was: Files, before: seq<Files>, fs: Files, after: seq<Files>, p: Path, data: Data, n: nat)
    requires p in was && n <= |data|
  {
    && fs == was[p := was[p] + data[..n]]
    && |after| == |before| + n
    && after[..|before|] == before
    && forall k :: |before| <= k < |after| ==> after[k] == was[p := was[p] + data[..k - |before| + 1]]
  }
}
