/**
 The photo store: the PHOTOS directory, one folder per employee. Each folder
 holds image files and, once computed, the employee's stored embedding
 (`embedding.npy`). The root may also hold entries that are not directories.
 The order of a sequence here is the order in which the directory lists it;
 that order is unspecified, and placing a newly created folder or file after
 the existing ones is a choice of this model.
 */
module Photos {
  import opened Wrappers
  import opened Gallery

  /** The raw bytes of an image file. */
  type Blob = seq<bv8>

  /** The face extractor (`get_embedding`): the embedding of the face in an image, or none. */
  type Extractor = Blob -> Option<Embedding>

  datatype File = File(name: string, content: Blob)

  datatype Entry =
    | Plain(name: string)
    | Folder(name: string, files: seq<File>, stored: Option<Embedding>)

  /** A one-star glob pattern `prefix*suffix`, such as "*.jpg" or "img_*.jpg". */
  datatype Pattern = Pattern(prefix: string, suffix: string)

  const JpgPattern := Pattern("", ".jpg")
  const FramePattern := Pattern("img_", ".jpg")

  predicate Matches(name: string, p: Pattern)
  {
    && |p.prefix| + |p.suffix| <= |name|
    && name[..|p.prefix|] == p.prefix
    && name[|name| - |p.suffix|..] == p.suffix
  }

  /** `folder.glob(p)`: the files whose names match p, in listing order. */
  function Glob(files: seq<File>, p: Pattern): (r: seq<File>)
    ensures |r| <= |files|
  {
    if files == [] then []
    else (if Matches(files[0].name, p) then [files[0]] else []) + Glob(files[1..], p)
  }

  /** A name matches `prefix*suffix` exactly when it is the prefix, any middle part, then the suffix. */
  lemma MatchesIsGlob(name: string, p: Pattern)
    ensures Matches(name, p) <==> exists mid :: name == p.prefix + mid + p.suffix
  {
    if Matches(name, p) {
      var mid := name[|p.prefix|..|name| - |p.suffix|];
      assert name == p.prefix + mid + p.suffix;
    }
    if exists mid :: name == p.prefix + mid + p.suffix {
      var mid :| name == p.prefix + mid + p.suffix;
      assert name[..|p.prefix|] == p.prefix;
      assert name[|name| - |p.suffix|..] == p.suffix;
    }
  }

  /** The glob yields exactly the files of the folder whose names match the pattern. */
  lemma {:induction false} GlobHas(files: seq<File>, p: Pattern, f: File)
    ensures f in Glob(files, p) <==> f in files && Matches(f.name, p)
  {
    if files != [] {
      GlobHas(files[1..], p, f);
    }
  }

  /** Two patterns that agree on every file of a folder glob the same files. */
  lemma {:induction false} GlobSame(files: seq<File>, p: Pattern, q: Pattern)
    requires forall f :: f in files ==> (Matches(f.name, p) <==> Matches(f.name, q))
    ensures Glob(files, p) == Glob(files, q)
  {
    if files != [] {
      assert forall f :: f in files[1..] ==> f in files;
      GlobSame(files[1..], p, q);
    }
  }

  /** Every captured frame "img_*.jpg" is also a "*.jpg". */
  lemma FrameIsJpg(name: string)
    requires Matches(name, FramePattern)
    ensures Matches(name, JpgPattern)
  {
  }

  predicate FileNamesDistinct(files: seq<File>)
  {
    forall i, j :: 0 <= i < j < |files| ==> files[i].name != files[j].name
  }

  predicate NamesDistinct(es: seq<Entry>)
  {
    forall i, j :: 0 <= i < j < |es| ==> es[i].name != es[j].name
  }

  /** What a file system guarantees: no two entries of a directory share a name. */
  predicate StoreValid(es: seq<Entry>)
  {
    && NamesDistinct(es)
    && forall i :: 0 <= i < |es| && es[i].Folder? ==> FileNamesDistinct(es[i].files)
  }

  /** The files a glob inside PHOTOS/name can see: none when that path is missing or not a directory. */
  function FolderOf(es: seq<Entry>, name: string): (files: seq<File>)
    ensures files != [] ==> exists i :: 0 <= i < |es| && es[i].Folder? && es[i].name == name && es[i].files == files
  {
    if es == [] then []
    else if es[0].name == name then (if es[0].Folder? then es[0].files else [])
    else FolderOf(es[1..], name)
  }

  /** In a directory with distinct names, the files seen inside an entry's path are that entry's own: its files when it is a folder, none when it is a plain file. */
  lemma {:induction false} FolderOfAt(es: seq<Entry>, i: nat)
    requires NamesDistinct(es) && i < |es|
    ensures FolderOf(es, es[i].name) == if es[i].Folder? then es[i].files else []
  {
    if i > 0 {
      assert es[0].name != es[i].name;
      assert es[1..][i - 1] == es[i];
      FolderOfAt(es[1..], i - 1);
    }
  }

  /** `np.save(PHOTOS/name/"embedding.npy", v)`: the folder's stored embedding becomes v. */
  function SetStored(es: seq<Entry>, name: string, v: Embedding): (r: seq<Entry>)
    ensures |r| == |es|
  {
    seq(|es|, i requires 0 <= i < |es| =>
      if es[i].Folder? && es[i].name == name then es[i].(stored := Some(v)) else es[i])
  }

  lemma SetStoredKeepsValid(es: seq<Entry>, name: string, v: Embedding)
    requires StoreValid(es)
    ensures StoreValid(SetStored(es, name, v))
    ensures forall i :: 0 <= i < |es| ==> SetStored(es, name, v)[i].name == es[i].name
  {
  }

  /** `file.save(...)` inside a folder: a file of that name is overwritten in place, otherwise the file is added. */
  function WriteFile(files: seq<File>, f: File): (r: seq<File>)
    ensures f in r && |files| <= |r| <= |files| + 1
  {
    if files == [] then [f]
    else if files[0].name == f.name then [f] + files[1..]
    else [files[0]] + WriteFile(files[1..], f)
  }

  /**
   `(PHOTOS/name).mkdir(exist_ok=True)` followed by saving f inside it; none when
   PHOTOS/name exists and is not a directory, where mkdir raises.
   */
  function SaveInto(es: seq<Entry>, name: string, f: File): (r: Option<seq<Entry>>)
    ensures r.Some? ==> |es| <= |r.value| <= |es| + 1
  {
    if es == [] then Some([Folder(name, [f], None)])
    else if es[0].name == name then
      (if es[0].Folder? then Some([es[0].(files := WriteFile(es[0].files, f))] + es[1..]) else None)
    else
      match SaveInto(es[1..], name, f)
      case None => None
      case Some(rest) => Some([es[0]] + rest)
  }

  /** mkdir-then-save fails exactly when PHOTOS/name is a plain file; a missing or existing folder takes the file. */
  lemma {:induction false} SaveIntoFailsIff(es: seq<Entry>, name: string, f: File)
    requires NamesDistinct(es)
    ensures SaveInto(es, name, f).None? <==> exists i :: 0 <= i < |es| && es[i].name == name && es[i].Plain?
  {
    if es != [] && es[0].name != name {
      assert NamesDistinct(es[1..]);
      SaveIntoFailsIff(es[1..], name, f);
      assert forall i :: 0 < i < |es| ==> es[1..][i - 1] == es[i];
    } else if es != [] {
      assert forall i :: 0 < i < |es| ==> es[i].name != name;
    }
  }

  /** After a write the folder holds exactly one file of that name, with the written content, and every other file as before. */
  lemma {:induction false} WriteFileSpec(files: seq<File>, f: File)
    requires FileNamesDistinct(files)
    ensures FileNamesDistinct(WriteFile(files, f))
    ensures f in WriteFile(files, f)
    ensures forall g :: g in WriteFile(files, f) && g.name == f.name ==> g == f
    ensures forall g :: g in files && g.name != f.name ==> g in WriteFile(files, f)
    ensures forall g :: g in WriteFile(files, f) && g.name != f.name ==> g in files
  {
    if files != [] && files[0].name != f.name {
      WriteFileSpec(files[1..], f);
      var r := WriteFile(files, f);
      forall j | 0 < j < |r|
        ensures r[0].name != r[j].name
      {
        assert r[j] in WriteFile(files[1..], f);
        if r[j].name != f.name {
          var k :| 0 <= k < |files[1..]| && files[1..][k] == r[j];
          assert files[k + 1] == r[j];
        }
      }
      forall g | g in files && g.name != f.name
        ensures g in r
      {
        if g != files[0] {
          assert g in files[1..];
        }
      }
    } else if files != [] {
      var r := WriteFile(files, f);
      forall g | g in r && g.name == f.name
        ensures g == f
      {
        var k :| 0 <= k < |r| && r[k] == g;
      }
    }
  }

  /**
   `(PHOTOS/name).mkdir(exist_ok=True)` alone: an existing folder is kept as it
   is, a missing one is added empty; none when PHOTOS/name is not a directory.
   */
  function MakeDir(es: seq<Entry>, name: string): (r: Option<seq<Entry>>)
    ensures r.Some? ==> |es| <= |r.value| <= |es| + 1
  {
    if es == [] then Some([Folder(name, [], None)])
    else if es[0].name == name then (if es[0].Folder? then Some(es) else None)
    else
      match MakeDir(es[1..], name)
      case None => None
      case Some(rest) => Some([es[0]] + rest)
  }

  /** mkdir fails exactly when PHOTOS/name is a plain file. */
  lemma {:induction false} MakeDirFailsIff(es: seq<Entry>, name: string)
    requires NamesDistinct(es)
    ensures MakeDir(es, name).None? <==> exists i :: 0 <= i < |es| && es[i].name == name && es[i].Plain?
  {
    if es != [] && es[0].name != name {
      assert NamesDistinct(es[1..]);
      MakeDirFailsIff(es[1..], name);
      assert forall i :: 0 < i < |es| ==> es[1..][i - 1] == es[i];
    } else if es != [] {
      assert forall i :: 0 < i < |es| ==> es[i].name != name;
    }
  }

  /**
   mkdir fails exactly where mkdir-then-save fails; when it succeeds the store
   stays valid, no glob sees a new file, and no stored embedding changes.
   */
  lemma {:induction false} MakeDirSpec(es: seq<Entry>, name: string, f: File)
    requires StoreValid(es)
    ensures MakeDir(es, name).Some? <==> SaveInto(es, name, f).Some?
    ensures MakeDir(es, name).Some? ==>
      && StoreValid(MakeDir(es, name).value)
      && (forall n :: FolderOf(MakeDir(es, name).value, n) == FolderOf(es, n))
      && (forall i :: 0 <= i < |es| ==> MakeDir(es, name).value[i] == es[i])
  {
    if es != [] && es[0].name != name {
      assert StoreValid(es[1..]);
      MakeDirSpec(es[1..], name, f);
      if MakeDir(es, name).Some? {
        var r := MakeDir(es, name).value;
        var rest := MakeDir(es[1..], name).value;
        assert r == [es[0]] + rest && r[1..] == rest;
        assert forall i :: 0 < i < |es| ==> es[1..][i - 1] == es[i] && r[i] == rest[i - 1];
        forall j | 0 < j < |r|
          ensures r[0].name != r[j].name
        {
          if j < |es| {
            assert r[j] == es[j];
          } else {
            MakeDirAdds(es, name);
          }
        }
      }
    } else if es == [] {
      var r := MakeDir(es, name).value;
      assert forall n :: FolderOf(r, n) == [] by {
        forall n ensures FolderOf(r, n) == [] {
          assert r[1..] == [];
        }
      }
    }
  }

  /** mkdir adds at most one entry, the new folder, after the others, and only when no entry had its name. */
  lemma {:induction false} MakeDirAdds(es: seq<Entry>, name: string)
    requires MakeDir(es, name).Some?
    ensures var r := MakeDir(es, name).value;
      || |r| == |es|
      || (&& |r| == |es| + 1
          && r[|es|] == Folder(name, [], None)
          && forall i :: 0 <= i < |es| ==> es[i].name != name)
  {
    if es != [] && es[0].name != name {
      MakeDirAdds(es[1..], name);
      var r := MakeDir(es, name).value;
      assert r == [es[0]] + MakeDir(es[1..], name).value;
      assert forall i :: 0 < i < |es| ==> es[1..][i - 1] == es[i];
    }
  }

  /** Saving a file keeps the store a valid directory tree. */
  lemma {:induction false} SaveIntoValid(es: seq<Entry>, name: string, f: File)
    requires StoreValid(es)
    requires SaveInto(es, name, f).Some?
    ensures StoreValid(SaveInto(es, name, f).value)
  {
    var r := SaveInto(es, name, f).value;
    if es == [] {
    } else if es[0].name == name {
      WriteFileSpec(es[0].files, f);
      assert forall j :: 0 < j < |r| ==> r[j] == es[j];
    } else {
      var rest := SaveInto(es[1..], name, f).value;
      assert StoreValid(es[1..]);
      SaveIntoValid(es[1..], name, f);
      assert r == [es[0]] + rest;
      SaveIntoNames(es[1..], name, f);
      forall j | 0 < j < |r|
        ensures r[0].name != r[j].name
      {
        assert r[j] == rest[j - 1];
        if rest[j - 1].name != name {
          var k :| 0 <= k < |es[1..]| && es[1..][k].name == rest[j - 1].name;
          assert es[k + 1].name == r[j].name;
        }
      }
    }
  }

  /**
   A frame saved under PHOTOS/name is then seen by a glob in that folder, with
   its content; every other file of the folder is still there; every other root
   entry is unchanged, every folder keeps its stored embedding, and the store
   stays a valid directory tree.
   */
  lemma SaveIntoSpec(es: seq<Entry>, name: string, f: File)
    requires StoreValid(es)
    requires SaveInto(es, name, f).Some?
    ensures StoreValid(SaveInto(es, name, f).value)
    ensures f in FolderOf(SaveInto(es, name, f).value, name)
    ensures forall g :: g in FolderOf(SaveInto(es, name, f).value, name) && g.name == f.name ==> g == f
    ensures forall g :: g in FolderOf(es, name) && g.name != f.name ==> g in FolderOf(SaveInto(es, name, f).value, name)
    ensures forall n :: n != name ==> FolderOf(SaveInto(es, name, f).value, n) == FolderOf(es, n)
    ensures forall i :: 0 <= i < |es| && es[i].name != name ==> SaveInto(es, name, f).value[i] == es[i]
    ensures forall i :: 0 <= i < |es| && es[i].Folder? ==>
      SaveInto(es, name, f).value[i].Folder? && SaveInto(es, name, f).value[i].stored == es[i].stored
  {
    SaveIntoValid(es, name, f);
    SaveIntoFolders(es, name, f);
    SaveIntoEntries(es, name, f);
  }

  /** What the globs see after a save: the new file in its folder, the folder's other files, and every other folder as before. */
  lemma {:induction false} SaveIntoFolders(es: seq<Entry>, name: string, f: File)
    requires StoreValid(es)
    requires SaveInto(es, name, f).Some?
    ensures f in FolderOf(SaveInto(es, name, f).value, name)
    ensures forall g :: g in FolderOf(SaveInto(es, name, f).value, name) && g.name == f.name ==> g == f
    ensures forall g :: g in FolderOf(es, name) && g.name != f.name ==> g in FolderOf(SaveInto(es, name, f).value, name)
    ensures forall n :: n != name ==> FolderOf(SaveInto(es, name, f).value, n) == FolderOf(es, n)
  {
    var r := SaveInto(es, name, f).value;
    if es == [] {
    } else if es[0].name == name {
      WriteFileSpec(es[0].files, f);
      assert r[1..] == es[1..];
    } else {
      var rest := SaveInto(es[1..], name, f).value;
      assert StoreValid(es[1..]);
      SaveIntoFolders(es[1..], name, f);
      assert r == [es[0]] + rest && r[1..] == rest;
    }
  }

  /**
   Saving touches only the root entry named `name`: every other entry stays as
   it was and where it was, that entry (a folder) keeps its stored embedding and
   gets the file written, and when no entry has that name a new folder holding
   only the file is added after the others.
   */
  lemma {:induction false} SaveIntoEntries(es: seq<Entry>, name: string, f: File)
    requires NamesDistinct(es)
    requires SaveInto(es, name, f).Some?
    ensures var r := SaveInto(es, name, f).value;
      || |r| == |es|
      || (&& |r| == |es| + 1
          && r[|es|] == Folder(name, [f], None)
          && forall i :: 0 <= i < |es| ==> es[i].name != name)
    ensures var r := SaveInto(es, name, f).value;
      forall i :: 0 <= i < |es| ==>
        if es[i].name == name then es[i].Folder? && r[i] == es[i].(files := WriteFile(es[i].files, f))
        else r[i] == es[i]
    ensures forall i :: 0 <= i < |es| && es[i].name != name ==> SaveInto(es, name, f).value[i] == es[i]
    ensures forall i :: 0 <= i < |es| && es[i].Folder? ==>
      SaveInto(es, name, f).value[i].Folder? && SaveInto(es, name, f).value[i].stored == es[i].stored
  {
    if es != [] && es[0].name != name {
      var r := SaveInto(es, name, f).value;
      var rest := SaveInto(es[1..], name, f).value;
      SaveIntoEntries(es[1..], name, f);
      assert r == [es[0]] + rest;
      assert forall i :: 0 < i < |es| ==> es[1..][i - 1] == es[i] && r[i] == rest[i - 1];
    }
  }

  /** Saving into a folder adds at most that folder's name to the root listing. */
  lemma {:induction false} SaveIntoNames(es: seq<Entry>, name: string, f: File)
    requires SaveInto(es, name, f).Some?
    ensures forall j :: 0 <= j < |SaveInto(es, name, f).value| ==>
      SaveInto(es, name, f).value[j].name == name ||
      exists k :: 0 <= k < |es| && es[k].name == SaveInto(es, name, f).value[j].name
  {
    if es != [] && es[0].name != name {
      SaveIntoNames(es[1..], name, f);
      var r := SaveInto(es, name, f).value;
      forall j | 0 < j < |r| && r[j].name != name
        ensures exists k :: 0 <= k < |es| && es[k].name == r[j].name
      {
        var k :| 0 <= k < |es[1..]| && es[1..][k].name == r[j].name;
        assert es[k + 1].name == r[j].name;
      }
    } else if es != [] {
      var r := SaveInto(es, name, f).value;
      assert forall j :: 0 < j < |r| ==> r[j] == es[j];
    }
  }
}
