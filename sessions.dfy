/** fsOpen, fsCreate and fsClose: thin wrappers that resolve a name to an
    inode through the directory and inode collaborators and register or
    release the session. */
module Sessions {
  import opened Errors

  /** The collaborator state these wrappers go through: the directory (name
      -> inode number), the next inode number the inode table hands out and
      how many it can hand out, and the inodes that have an open session. */
  datatype Catalog = Catalog(directory: map<string, nat>, nextInum: nat, capacity: nat, open: set<nat>)
  {
    /** Every inode number in the directory has been handed out already,
        and no two names share an inode. */
    ghost predicate Valid() {
      && (forall name :: name in directory ==> directory[name] < nextInum)
      && (forall a, b :: a in directory && b in directory && a != b ==> directory[a] != directory[b])
    }
  }

  /** bfsInumToFd: the descriptor of inode `inum`; this model uses the inode
      number itself. */
  function InumToFd(inum: nat): nat
  {
    inum
  }

  /** fsOpen: the descriptor of the file called `name`, now open; EFNF, with
      nothing changed, when there is no such file. */
  function Open(cat: Catalog, name: string): (r: (Catalog, Result<nat>))
    ensures r.1.Err? <==> name !in cat.directory
    ensures r.1.Err? ==> r.1.error == FileNotFound && r.0 == cat
    ensures r.1.Ok? ==> r.1.value == cat.directory[name] && r.0 == cat.(open := cat.open + {r.1.value})
  {
    if name !in cat.directory then (cat, Err(FileNotFound))
    else
      var inum := cat.directory[name];
      (cat.(open := cat.open + {inum}), Ok(InumToFd(inum)))
  }

  /** fsCreate: the descriptor of the file called `name`, now open. An
      existing file keeps its inode (its contents are dropped: see
      Fs.OpenFile's constructor); a new name gets a fresh inode, and EFNF
      comes back, with nothing changed, when the inode table is full. */
  function Create(cat: Catalog, name: string): (r: (Catalog, Result<nat>))
    requires cat.Valid()
    ensures r.0.Valid()
    ensures r.1.Err? <==> name !in cat.directory && cat.nextInum >= cat.capacity
    ensures r.1.Err? ==> r.1.error == FileNotFound && r.0 == cat
    ensures r.1.Ok? ==> name in r.0.directory && r.0.directory[name] == r.1.value && r.1.value in r.0.open
    ensures r.1.Ok? ==> forall other :: other != name ==>
      (other in r.0.directory <==> other in cat.directory) &&
      (other in cat.directory ==> r.0.directory[other] == cat.directory[other] != r.1.value)
  {
    if name in cat.directory then
      var inum := cat.directory[name];
      (cat.(open := cat.open + {inum}), Ok(InumToFd(inum)))
    else if cat.nextInum < cat.capacity then
      var inum := cat.nextInum;
      var cat' := cat.(directory := cat.directory[name := inum], nextInum := inum + 1, open := cat.open + {inum});
      (cat', Ok(InumToFd(inum)))
    else
      (cat, Err(FileNotFound))
  }

  /** fsClose: release the session on `fd`; always reports 0. */
  function Close(cat: Catalog, fd: nat): (r: (Catalog, int))
    ensures r.1 == 0
    ensures r.0.open == cat.open - {fd} && r.0.directory == cat.directory
  {
    (cat.(open := cat.open - {fd}), 0)
  }

  /** Opening a name that create has just made (or truncated) gives the
      same descriptor create gave. */
  lemma OpenAfterCreate(cat: Catalog, name: string)
    requires cat.Valid()
    requires Create(cat, name).1.Ok?
    ensures Open(Create(cat, name).0, name).1 == Create(cat, name).1
  {
    var (cat', fd) := Create(cat, name);
    assert name in cat'.directory && cat'.directory[name] == fd.value;
  }

  /** Opening an absent name is not fatal: it reports EFNF and changes nothing. */
  lemma OpenMissing(cat: Catalog, name: string)
    requires name !in cat.directory
    ensures Open(cat, name) == (cat, Err(FileNotFound))
  {
  }
}
