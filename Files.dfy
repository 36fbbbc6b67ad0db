/**
 * The file system as the scripts use it: a map from path to text, updated
 * by whole-file writes, copies and atomic renames. Every update appends the
 * new map to a ghost trace, so a contract can speak about every state a
 * reader of the disk could have seen.
 */
module Files {

  /** A set of paths inside another holds no more of them: what bounds the name-probing loops. */
  lemma SubsetPaths(a: set<string>, b: set<string>)
    requires a <= b
    ensures |a| <= |b|
  {
    assert b == a + (b - a);
  }

  class FileStore {
    var files: map<string, string>
    ghost var trace: seq<map<string, string>>

    ghost predicate Valid()
      reads this
    {
      |trace| > 0 && trace[|trace| - 1] == files
    }

    constructor (init: map<string, string>)
      ensures Valid() && files == init && trace == [init]
    {
      files := init;
      trace := [init];
    }

    /** `path.write_text(text)`: the file now holds `text`. */
    method Write(path: string, text: string)
      requires Valid()
      modifies this
      ensures Valid()
      ensures files == old(files)[path := text]
      ensures trace == old(trace) + [files]
    {
      files := files[path := text];
      trace := trace + [files];
    }

    /**
     * `shutil.copyfile(src, dst)`: fails when the source is missing or when
     * the environment refuses (`refused`); a failed copy changes nothing.
     */
    method Copy(src: string, dst: string, refused: bool) returns (ok: bool)
      requires Valid()
      modifies this
      ensures Valid()
      ensures ok <==> src in old(files) && !refused
      ensures ok ==> files == old(files)[dst := old(files)[src]] && trace == old(trace) + [files]
      ensures !ok ==> files == old(files) && trace == old(trace)
    {
      ok := src in files && !refused;
      if ok {
        files := files[dst := files[src]];
        trace := trace + [files];
      }
    }

    /** `os.replace(src, dst)`: one step, `dst` takes the content of `src`, `src` disappears. */
    method Replace(src: string, dst: string) returns (ok: bool)
      requires Valid()
      modifies this
      ensures Valid()
      ensures ok <==> src in old(files)
      ensures ok ==> files == (old(files) - {src})[dst := old(files)[src]] && trace == old(trace) + [files]
      ensures !ok ==> files == old(files) && trace == old(trace)
    {
      ok := src in files;
      if ok {
        files := (files - {src})[dst := files[src]];
        trace := trace + [files];
      }
    }
  }
}
