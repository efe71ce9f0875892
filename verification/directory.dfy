/** A directory listing as the scripts see it: file names in listing order,
    each with the picture the image library opens, if it can. */
module Directory {
  import opened Wrappers
  import opened Imaging

  /** A directory entry: its file name and, when the image library can open
      it, its picture. `None` is a file that raises. */
  datatype Entry = Entry(name: string, picture: Option<Image>)

  /** File names in a directory are distinct. */
  predicate DistinctNames(entries: seq<Entry>) {
    forall i, j :: 0 <= i < j < |entries| ==> entries[i].name != entries[j].name
  }

  /** `Image.open(path).convert("RGBA")` on a name from the directory. */
  function Open(entries: seq<Entry>, name: string): (r: Option<Image>)
    ensures r.Some? ==> exists i :: 0 <= i < |entries| && entries[i].name == name &&
                                    entries[i].picture == r
  {
    if |entries| == 0 then None
    else if entries[0].name == name then entries[0].picture
    else
      var r := Open(entries[1..], name);
      assert r.Some? ==> exists i :: 0 <= i < |entries| - 1 && entries[1..][i].name == name &&
                                     entries[1..][i].picture == r;
      r
  }

  lemma {:induction false} OpenFinds(entries: seq<Entry>, i: nat)
    requires i < |entries| && DistinctNames(entries)
    ensures Open(entries, entries[i].name) == entries[i].picture
  {
    if i > 0 {
      assert entries[1..][i - 1] == entries[i];
      OpenFinds(entries[1..], i - 1);
    }
  }
}
