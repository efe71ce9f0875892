/** The sprite index of from_json_to_frame.py: one pass over the sprite
    directory that maps each sprite's content hash to its file name. */
module SpriteIndex {
  import opened Wrappers
  import opened Text
  import opened Imaging
  import opened ArgbHash
  import opened Directory

  /** The extensions the index accepts, compared in lower case. */
  const SpriteSuffixes: seq<string> := [".png", ".jpg", ".jpeg", ".webp"]

  predicate IsSpriteFile(name: string) {
    EndsWithAny(Lower(name), SpriteSuffixes)
  }

  /** The entry passes the name filter and opens. */
  predicate Indexed(e: Entry) {
    IsSpriteFile(e.name) && e.picture.Some?
  }

  function Digest(e: Entry, sha256: Sha256): string
    requires e.picture.Some?
  {
    ContentHash(e.picture.value, sha256)
  }

  /** Content hash to file name (`hash_to_path`). */
  type Index = map<string, string>

  /** One iteration of the indexing loop: skip filtered or unreadable files,
      otherwise (over)write the entry for the file's digest. */
  function AddEntry(idx: Index, e: Entry, sha256: Sha256): (r: Index)
    ensures !Indexed(e) ==> r == idx
    ensures Indexed(e) ==> r.Keys == idx.Keys + {Digest(e, sha256)}
    ensures Indexed(e) ==> r[Digest(e, sha256)] == e.name
  {
    if Indexed(e) then idx[Digest(e, sha256) := e.name] else idx
  }

  /** The table after scanning `entries` in directory order. */
  function BuildIndex(entries: seq<Entry>, sha256: Sha256): Index {
    if |entries| == 0 then map[]
    else AddEntry(BuildIndex(entries[..|entries| - 1], sha256), entries[|entries| - 1], sha256)
  }

  /** The digests of the entries that pass the filter and open. */
  function DigestsOf(entries: seq<Entry>, sha256: Sha256): set<string> {
    set i | 0 <= i < |entries| && Indexed(entries[i]) :: Digest(entries[i], sha256)
  }

  /** The keys of the index are exactly the digests of the readable sprite
      files: every such file is indexed, and nothing else is. */
  lemma {:induction false} IndexKeys(entries: seq<Entry>, sha256: Sha256)
    ensures BuildIndex(entries, sha256).Keys == DigestsOf(entries, sha256)
  {
    if |entries| > 0 {
      var init, last := entries[..|entries| - 1], entries[|entries| - 1];
      IndexKeys(init, sha256);
      var before, after := DigestsOf(init, sha256), DigestsOf(entries, sha256);
      forall d | d in after
        ensures d in before || (Indexed(last) && d == Digest(last, sha256))
      {
        var i :| 0 <= i < |entries| && Indexed(entries[i]) && Digest(entries[i], sha256) == d;
        if i < |entries| - 1 {
          assert init[i] == entries[i];
        }
      }
      forall d | d in before
        ensures d in after
      {
        var i :| 0 <= i < |init| && Indexed(init[i]) && Digest(init[i], sha256) == d;
        assert entries[i] == init[i];
      }
      if Indexed(last) {
        assert Digest(entries[|entries| - 1], sha256) in after;
      }
    }
  }

  /** Each file adds at most one entry, so the table never has more
      entries than the directory has files. */
  lemma {:induction false} IndexSize(entries: seq<Entry>, sha256: Sha256)
    ensures |BuildIndex(entries, sha256)| <= |entries|
  {
    if |entries| > 0 {
      var init, last := entries[..|entries| - 1], entries[|entries| - 1];
      IndexSize(init, sha256);
      var before := BuildIndex(init, sha256);
      if Indexed(last) {
        assert BuildIndex(entries, sha256).Keys == before.Keys + {Digest(last, sha256)};
        assert |before.Keys + {Digest(last, sha256)}| <= |before.Keys| + 1;
      }
    }
  }

  /** The message's count is the number of distinct digests. */
  lemma IndexCount(entries: seq<Entry>, sha256: Sha256)
    ensures |BuildIndex(entries, sha256)| == |DigestsOf(entries, sha256)|
  {
    IndexKeys(entries, sha256);
  }

  /** An entry whose digest no later readable file shares keeps its name in
      the table: of several files with one picture, the last one wins. */
  lemma {:induction false} IndexKeepsLast(entries: seq<Entry>, sha256: Sha256, i: nat)
    requires i < |entries| && Indexed(entries[i])
    requires forall j :: i < j < |entries| && Indexed(entries[j]) ==>
      Digest(entries[j], sha256) != Digest(entries[i], sha256)
    ensures Digest(entries[i], sha256) in BuildIndex(entries, sha256)
    ensures BuildIndex(entries, sha256)[Digest(entries[i], sha256)] == entries[i].name
  {
    var init := entries[..|entries| - 1];
    if i < |entries| - 1 {
      assert init[i] == entries[i];
      IndexKeepsLast(init, sha256, i);
    }
  }

  /** Every name in the table belongs to a readable sprite file whose digest
      is the key it is stored under. */
  lemma {:induction false} IndexSound(entries: seq<Entry>, sha256: Sha256, d: string)
    requires d in BuildIndex(entries, sha256)
    ensures exists i :: 0 <= i < |entries| && Indexed(entries[i]) &&
                        Digest(entries[i], sha256) == d && entries[i].name == BuildIndex(entries, sha256)[d]
  {
    var init, last := entries[..|entries| - 1], entries[|entries| - 1];
    if Indexed(last) && d == Digest(last, sha256) {
      assert entries[|entries| - 1] == last;
    } else {
      IndexSound(init, sha256, d);
      var i :| 0 <= i < |init| && Indexed(init[i]) &&
        Digest(init[i], sha256) == d && init[i].name == BuildIndex(init, sha256)[d];
      assert entries[i] == init[i];
    }
  }

  /** Looking a digest up and reopening the file gives a picture with that
      digest: the index resolves hashes to matching sprites. */
  lemma IndexResolves(entries: seq<Entry>, sha256: Sha256, d: string)
    requires DistinctNames(entries)
    requires d in BuildIndex(entries, sha256)
    ensures Open(entries, BuildIndex(entries, sha256)[d]).Some?
    ensures ContentHash(Open(entries, BuildIndex(entries, sha256)[d]).value, sha256) == d
  {
    IndexSound(entries, sha256, d);
    var i :| 0 <= i < |entries| && Indexed(entries[i]) &&
      Digest(entries[i], sha256) == d && entries[i].name == BuildIndex(entries, sha256)[d];
    OpenFinds(entries, i);
  }
}
