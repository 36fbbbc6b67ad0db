/**
 * Choosing the input file of a folder: `sorted(folder.glob(pattern))[0]`.
 * Paths are the keys of the file map; a folder's files are the keys
 * `folder + "/" + name` with no further "/" in `name`.
 */
module Folder {
  import opened Wrappers
  import opened Strings

  /** `folder / name`. */
  function Child(folder: string, name: string): string {
    folder + "/" + name
  }

  /** `path` is a file directly inside `folder`. */
  predicate InFolder(path: string, folder: string) {
    |path| > |folder| + 1 && path[..|folder| + 1] == folder + "/" && '/' !in path[|folder| + 1..]
  }

  /** The name of a path inside `folder`. */
  function NameIn(path: string, folder: string): string
    requires InFolder(path, folder)
  {
    path[|folder| + 1..]
  }

  /**
   * How a script recognises its input among a folder's names:
   * - `Glob(prefix)`: pathlib's `glob("<prefix>*.txt")`;
   * - `RegexIgnoreCase(prefix)`: `"^<prefix>.*\\.txt$"` compiled with
   *   IGNORECASE and full-matched, "." escaped;
   * - `RegexLoose(prefix)`: `re.fullmatch("<prefix>.*.txt", name)`, where the
   *   unescaped "." before "txt" matches any character but a line break.
   * In both regex rules `.*` never crosses a line break.
   */
  datatype NameRule = Glob(prefix: string) | RegexIgnoreCase(prefix: string) | RegexLoose(prefix: string)

  /** The glob `<prefix>*.txt`: the name starts with `prefix` and ends in ".txt", not overlapping. */
  predicate GlobTxt(name: string, prefix: string) {
    |name| >= |prefix| + 4 && StartsWith(name, prefix) && EndsWith(name, ".txt")
  }

  /** Whether `rule` accepts the file name `name`. */
  predicate Accepts(rule: NameRule, name: string) {
    match rule
    case Glob(prefix) => GlobTxt(name, prefix)
    case RegexIgnoreCase(prefix) =>
      |name| >= |prefix| + 4 && GlobTxt(Lower(name), Lower(prefix))
      && '\n' !in name[|prefix|..|name| - 4]
    case RegexLoose(prefix) =>
      |name| >= |prefix| + 4 && StartsWith(name, prefix) && EndsWith(name, "txt")
      && '\n' !in name[|prefix|..|name| - 3]
  }

  /** `path` is a file of `folder` that `rule` accepts. */
  predicate Candidate(path: string, folder: string, rule: NameRule) {
    InFolder(path, folder) && Accepts(rule, NameIn(path, folder))
  }

  /** `p` is the first of the accepted paths in sorted order. */
  predicate IsPick(files: map<string, string>, folder: string, rule: NameRule, p: string) {
    p in files && Candidate(p, folder, rule)
    && forall q :: q in files && Candidate(q, folder, rule) ==> LexLe(p, q)
  }

  /**
   * The first path in sorted order that `rule` accepts, as every script
   * picks its input (`sorted(...)[0]`, or the first sorted name matching).
   * The scripts that try a second pattern "<prefix>.txt" gain nothing by it:
   * that pattern only accepts names the first one already accepts.
   */
  method PickFirst(files: map<string, string>, folder: string, rule: NameRule) returns (r: Option<string>)
    ensures r.Some? ==> IsPick(files, folder, rule, r.value)
    ensures r.None? <==> forall p :: p in files ==> !Candidate(p, folder, rule)
  {
    var rest := files.Keys;
    r := None;
    while rest != {}
      invariant rest <= files.Keys
      invariant r.Some? ==> r.value in files && Candidate(r.value, folder, rule)
      invariant r.Some? ==> forall p :: p in files && p !in rest && Candidate(p, folder, rule) ==> LexLe(r.value, p)
      invariant r.None? ==> forall p :: p in files && p !in rest ==> !Candidate(p, folder, rule)
      decreases |rest|
    {
      var p :| p in rest;
      rest := rest - {p};
      if Candidate(p, folder, rule) {
        match r
        case None =>
          LexLeRefl(p);
          r := Some(p);
        case Some(q) =>
          if !LexLe(q, p) {
            LexLeTotal(q, p);
            forall p' | p' in files && p' !in rest && Candidate(p', folder, rule) ensures LexLe(p, p') {
              if p' == p {
                LexLeRefl(p);
              } else {
                LexLeTrans(p, q, p');
              }
            }
            r := Some(p);
          }
      }
    }
  }

  /** Two paths both picked from the same files are the same path. */
  lemma PickUnique(files: map<string, string>, folder: string, rule: NameRule, p: string, q: string)
    requires IsPick(files, folder, rule, p) && IsPick(files, folder, rule, q)
    ensures p == q
  {
    LexLeAntisym(p, q);
  }
}
