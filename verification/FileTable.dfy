/** The list of entries a joiner is sent, as a directory (src/join.cpp). */
module FileTable {
  import opened RingArithmetic
  import opened NodeState
  import opened Joining

  datatype FileTableEntry = FileTableEntry(filenameHash: Point, owner: Contact)

  function AsDirectory(files: seq<FileTableEntry>): Directory {
    if files == [] then map[]
    else AsDirectory(files[..|files| - 1])[files[|files| - 1].filenameHash := files[|files| - 1].owner]
  }

  ghost predicate DistinctFiles(files: seq<FileTableEntry>) {
    files == [] ||
    (DistinctFiles(files[..|files| - 1]) && files[|files| - 1].filenameHash !in AsDirectory(files[..|files| - 1]))
  }

  lemma AppendFile(files: seq<FileTableEntry>, file: FileTableEntry)
    ensures AsDirectory(files + [file]) == AsDirectory(files)[file.filenameHash := file.owner]
    ensures DistinctFiles(files + [file]) <==> DistinctFiles(files) && file.filenameHash !in AsDirectory(files)
  {
  }

  lemma {:induction false} DistinctPrefix(files: seq<FileTableEntry>, i: nat)
    requires DistinctFiles(files) && i <= |files|
    ensures DistinctFiles(files[..i])
  {
    if i < |files| {
      DistinctPrefix(files[..|files| - 1], i);
      assert files[..|files| - 1][..i] == files[..i];
    } else {
      assert files[..i] == files;
    }
  }

  lemma InsertFile(m: Directory, kept: Directory, file: FileTableEntry)
    requires file.filenameHash !in m
    ensures m[file.filenameHash := file.owner] + kept ==
            if file.filenameHash in m + kept then m + kept else (m + kept)[file.filenameHash := file.owner]
  {
  }

  /** The hand-over while the files in todo are still to be looked at. */
  ghost function KeptSoFar(all: Directory, todo: set<Point>, cur: Point, joiner: Point): Directory {
    map f | f in all && (f in todo || !Moves(cur, joiner, f)) :: all[f]
  }

  ghost function SentSoFar(all: Directory, todo: set<Point>, cur: Point, joiner: Point): Directory {
    map f | f in all && f !in todo && Moves(cur, joiner, f) :: all[f]
  }

  lemma HandOverStep(all: Directory, todo: set<Point>, file: Point, cur: Point, joiner: Point)
    requires file in todo && file in all
    ensures Moves(cur, joiner, file) ==>
      && KeptSoFar(all, todo - {file}, cur, joiner) == KeptSoFar(all, todo, cur, joiner) - {file}
      && SentSoFar(all, todo - {file}, cur, joiner) == SentSoFar(all, todo, cur, joiner)[file := all[file]]
    ensures !Moves(cur, joiner, file) ==>
      && KeptSoFar(all, todo - {file}, cur, joiner) == KeptSoFar(all, todo, cur, joiner)
      && SentSoFar(all, todo - {file}, cur, joiner) == SentSoFar(all, todo, cur, joiner)
    ensures file in KeptSoFar(all, todo, cur, joiner) && KeptSoFar(all, todo, cur, joiner)[file] == all[file]
    ensures file !in SentSoFar(all, todo, cur, joiner)
  {
  }
}
