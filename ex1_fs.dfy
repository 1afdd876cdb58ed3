/** The single-tree file system of the first batch version (ex1/fs.c). */
module Ex1Fs {

  /** lookup's answer: the inumber bound to name, or 0. */
  function Find(root: map<string, int>, name: string): int {
    if name in root then root[name] else 0
  }

  /** After create(name, i), lookup(name) answers i and every other name answers as before. */
  lemma FindAfterCreate(root: map<string, int>, name: string, inumber: int, other: string)
    ensures Find(root[name := inumber], name) == inumber
    ensures other != name ==> Find(root[name := inumber], other) == Find(root, other)
  {
  }

  /** After delete(name), lookup(name) answers 0 and every other name answers as before. */
  lemma FindAfterDelete(root: map<string, int>, name: string, other: string)
    ensures Find(root - {name}, name) == 0
    ensures other != name ==> Find(root - {name}, other) == Find(root, other)
  {
  }

  class TecnicoFs {
    var bstRoot: map<string, int>
    var nextINumber: int

    /** new_tecnicofs: counter at 0 and an empty tree. */
    constructor ()
      ensures nextINumber == 0 && bstRoot == map[]
    {
      nextINumber := 0;
      bstRoot := map[];
    }

    /** obtainNewInumber: stores and returns nextINumber + 1. */
    method ObtainNewInumber() returns (inumber: int)
      modifies this
      ensures nextINumber == old(nextINumber) + 1 && inumber == nextINumber
      ensures bstRoot == old(bstRoot)
    {
      nextINumber := nextINumber + 1;
      inumber := nextINumber;
    }

    /** create: binds name; what the BST does with a duplicate is not known. */
    method Create(name: string, inumber: int)
      requires name !in bstRoot
      modifies this
      ensures bstRoot == old(bstRoot)[name := inumber] && nextINumber == old(nextINumber)
    {
      bstRoot := bstRoot[name := inumber];
    }

    /** delete: unbinds name. */
    method Delete(name: string)
      modifies this
      ensures bstRoot == old(bstRoot) - {name} && nextINumber == old(nextINumber)
    {
      bstRoot := bstRoot - {name};
    }

    /** lookup: the bound inumber, or 0 when the name is absent. */
    method Lookup(name: string) returns (inumber: int)
      ensures inumber == Find(bstRoot, name)
      ensures name in bstRoot ==> inumber == bstRoot[name]
    {
      var found := name in bstRoot;
      inumber := if found then bstRoot[name] else 0;
    }
  }
}
