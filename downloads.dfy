/** The part of `download_audio` (bot.py:33-77) that works on the output
    directory once the downloader has written its file: create the
    directory when it is missing, then locate the MP3.  The file named after
    the original title is renamed to the sanitised name; failing that, the
    first `.mp3` entry of the listing is used; failing that, the call ends in
    `FileNotFoundError`. */
module Downloads {
  import opened Seqs
  import Sanitize

  const Mp3: string := ".mp3"

  /** What the resolution step ends with: the path it returns after a
      rename, the path of the fallback entry, or the missing expected path
      (the `FileNotFoundError` of bot.py:75-77). */
  datatype Resolution = Renamed(path: string) | Fallback(path: string) | NotFound(missing: string)

  /** `os.path.join(dir, name)` on POSIX: an absolute `name` replaces
      `dir`, and a `/` is inserted unless `dir` is empty or already ends
      in one. */
  function Join(dir: string, name: string): (r: string)
    ensures HasSuffix(r, name)
    ensures !HasPrefix(name, "/") ==> HasPrefix(r, dir)
  {
    if HasPrefix(name, "/") then name
    else if dir == [] || HasSuffix(dir, "/") then dir + name
    else dir + "/" + name
  }

  /** Entry `k` is the first entry of the listing whose name ends in
      `.mp3`. */
  predicate IsFirstMp3(entries: seq<string>, k: int) {
    && 0 <= k < |entries|
    && HasSuffix(entries[k], Mp3)
    && forall j :: 0 <= j < k ==> !HasSuffix(entries[j], Mp3)
  }

  /** No entry of the listing ends in `.mp3`. */
  predicate NoMp3(entries: seq<string>) {
    forall j :: 0 <= j < |entries| ==> !HasSuffix(entries[j], Mp3)
  }

  /** The listing after `os.rename(src, dst)` on POSIX: `src` is gone, `dst`
      is present (replacing an entry of that name if there was one), and
      renaming an entry to itself changes nothing.  Listing order is up to
      the file system; this model puts the new name last. */
  function AfterRename(entries: seq<string>, src: string, dst: string): (r: seq<string>)
    requires src in entries
    ensures dst in r
    ensures src != dst ==> src !in r
    ensures forall x :: x != src && x != dst ==> (x in r <==> x in entries)
    ensures src == dst ==> r == entries
    ensures Distinct(entries) ==> Distinct(r)
  {
    if src == dst then entries
    else
      var rest := Without(Without(entries, src), dst);
      assert dst !in rest;
      assert Distinct(entries) ==> Distinct(rest + [dst]) by {
        if Distinct(entries) {
          assert forall i :: 0 <= i < |rest| ==> (rest + [dst])[i] == rest[i] != dst;
        }
      }
      rest + [dst]
  }

  /** On a listing without duplicates a rename takes away exactly one entry
      and adds one, less the entry `dst` replaces if it was already there. */
  lemma AfterRenameCount(entries: seq<string>, src: string, dst: string)
    requires Distinct(entries) && src in entries && src != dst
    ensures |AfterRename(entries, src, dst)| == if dst in entries then |entries| - 1 else |entries|
  {
    WithoutOnce(entries, src);
    if dst in entries {
      WithoutOnce(Without(entries, src), dst);
    }
  }

  /** The output directory `output_path` (bot.py:33): whether it exists and
      its listing, in the order `os.listdir` gives it. */
  class OutputDir {
    const path: string
    var present: bool
    var entries: seq<string>

    /** Facts about `os.listdir` the model keeps: a missing directory lists
        nothing, and a listing names each entry once (`AfterRenameCount`
        relies on the latter). */
    ghost predicate Valid()
      reads this
    {
      && (!present ==> entries == [])
      && Distinct(entries)
    }

    constructor (path: string, present: bool, entries: seq<string>)
      requires !present ==> entries == []
      requires Distinct(entries)
      ensures Valid()
      ensures this.path == path && this.present == present && this.entries == entries
    {
      this.path := path;
      this.present := present;
      this.entries := entries;
    }

    /** bot.py:34-35: create the directory when it does not exist yet. */
    method MakeDirs()
      requires Valid()
      modifies this
      ensures Valid() && present && entries == old(entries)
    {
      if !present {
        present := true;
      }
    }

    /** bot.py:70-72: `any(...)` followed by `next(...)` over the listing —
        the position of the first entry ending in `.mp3`, if there is one. */
    method FirstMp3() returns (found: Option<nat>)
      ensures found.Some? ==> IsFirstMp3(entries, found.value)
      ensures found.None? ==> NoMp3(entries)
    {
      var i := 0;
      while i < |entries|
        invariant 0 <= i <= |entries|
        invariant forall j :: 0 <= j < i ==> !HasSuffix(entries[j], Mp3)
      {
        if HasSuffix(entries[i], Mp3) {
          return Some(i);
        }
        i := i + 1;
      }
      return None;
    }

    /** bot.py:68: `os.rename` of an existing entry. */
    method Rename(src: string, dst: string)
      requires Valid() && src in entries
      modifies this
      ensures Valid() && present == old(present)
      ensures entries == AfterRename(old(entries), src, dst)
    {
      entries := AfterRename(entries, src, dst);
    }

    /** bot.py:57-77, after the download: `expected` is the original title
        with `.mp3`, `safe` the sanitised title with `.mp3`.  If `expected`
        is listed it is renamed to `safe` and the path of `safe` returned;
        otherwise the first `.mp3` entry is returned and nothing changes;
        otherwise the expected path is reported missing. */
    method Resolve(cc: Sanitize.CharClass, translit: string -> string, title: string)
      returns (r: Resolution)
      requires Valid() && present && cc.Valid()
      modifies this
      ensures Valid() && present
      ensures var expected := title + Mp3;
        var safe := Sanitize.SanitizeFilename(cc, translit, title) + Mp3;
        && (expected in old(entries) ==>
              r == Renamed(Join(path, safe)) && entries == AfterRename(old(entries), expected, safe))
        && (expected !in old(entries) ==> entries == old(entries))
        && (r.Fallback? <==> expected !in old(entries) && !NoMp3(old(entries)))
        && (r.Fallback? ==> exists k :: IsFirstMp3(old(entries), k) && r.path == Join(path, old(entries)[k]))
        && (r.NotFound? <==> expected !in old(entries) && NoMp3(old(entries)))
        && (r.NotFound? ==> r.missing == Join(path, expected))
    {
      var safeTitle := Sanitize.SanitizeFilename(cc, translit, title);
      var expected := title + Mp3;
      var safe := safeTitle + Mp3;
      if expected in entries {
        Rename(expected, safe);
        r := Renamed(Join(path, safe));
      } else {
        var found := FirstMp3();
        match found {
          case Some(k) =>
            r := Fallback(Join(path, entries[k]));
          case None =>
            r := NotFound(Join(path, expected));
        }
      }
    }
  }
}
