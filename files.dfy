/** The part of the filesystem the message creator touches: a set of existing
    directories and the content of every regular file, keyed by path. */
module Files {

  datatype Option<T> = None | Some(value: T)

  /** The directories `Path(path).mkdir(parents=True)` makes exist: the path
      itself and every prefix of it that ends just before a `/`. */
  function Parents(path: string): (r: set<string>)
    ensures path in r
    ensures forall d :: d in r ==> d <= path
  {
    {path} + set i | 0 < i < |path| && path[i] == '/' :: path[..i]
  }

  class FileSystem {
    var dirs: set<string>
    var files: map<string, string>

    constructor (dirs: set<string>, files: map<string, string>)
      ensures this.dirs == dirs && this.files == files
    {
      this.dirs := dirs;
      this.files := files;
    }

    /** `Path(path).is_file()`. */
    predicate IsFile(path: string)
      reads this
    {
      path in files
    }

    /** `Path(path).mkdir(parents=True, exist_ok=True)`: directories that already
        exist are no error. */
    method MakeDirs(path: string)
      modifies this
      ensures dirs == old(dirs) + Parents(path)
      ensures files == old(files)
    {
      dirs := dirs + Parents(path);
    }

    /** `open(path).read()`; `None` stands for `FileNotFoundError`. */
    method Read(path: string) returns (content: Option<string>)
      ensures path in files ==> content == Some(files[path])
      ensures path !in files ==> content == None
    {
      if path in files {
        content := Some(files[path]);
      } else {
        content := None;
      }
    }

    /** `open(path, 'w').write(content)`. */
    method Write(path: string, content: string)
      modifies this
      ensures files == old(files)[path := content]
      ensures dirs == old(dirs)
    {
      files := files[path := content];
    }

    /** `shutil.copyfile(source, target)`. */
    method CopyFile(source: string, target: string)
      requires source in files
      modifies this
      ensures files == old(files)[target := old(files)[source]]
      ensures dirs == old(dirs)
    {
      files := files[target := files[source]];
    }

    /** `Path(path).unlink(missing_ok=True)`. */
    method Unlink(path: string)
      modifies this
      ensures files == old(files) - {path}
      ensures dirs == old(dirs)
    {
      files := files - {path};
    }
  }
}
