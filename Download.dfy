/**
 * The string rules around the downloads of Automation2.py,
 * pipeline_api_to_checks.py and import_file_api.py, which share them word
 * for word: file-name sanitising, the retry delay, the LINE id lists and
 * multicast batches, URL normalisation, and saving a download under a
 * date-based name without overwriting anything.
 */
module Download {
  import opened Wrappers
  import opened Strings
  import opened Folder
  import opened Files
  import opened Dates

  // ------------------------------------------------------------ sanitise

  /** The characters Windows refuses in a file name. */
  const Reserved: string := "<>:\"/\\|?*"

  /** What `sanitize_filename` makes of `name`: each reserved character becomes "_". */
  function Sanitized(name: string): (r: string)
    ensures |r| == |name|
    ensures forall i :: 0 <= i < |r| ==> r[i] !in Reserved
    ensures forall i :: 0 <= i < |name| && name[i] !in Reserved ==> r[i] == name[i]
  {
    seq(|name|, i requires 0 <= i < |name| => if name[i] in Reserved then '_' else name[i])
  }

  /** `s.replace(c, "_")` for one character `c`. */
  lemma {:induction false} ReplaceOneChar(s: string, c: char)
    ensures |Replace(s, [c], "_")| == |s|
    ensures forall i :: 0 <= i < |s| ==> Replace(s, [c], "_")[i] == if s[i] == c then '_' else s[i]
    decreases |s|
  {
    if |s| > 0 {
      ReplaceOneChar(s[1..], c);
      var rest := Replace(s[1..], [c], "_");
      if s[..1] == [c] {
        assert Replace(s, [c], "_") == "_" + rest;
      } else {
        assert Replace(s, [c], "_") == [s[0]] + rest;
      }
    }
  }

  /**
   * `sanitize_filename` as written, one `replace` per reserved character; it
   * computes `Sanitized`, and sanitising a sanitised name changes nothing.
   */
  method SanitizeFilename(name: string) returns (r: string)
    ensures r == Sanitized(name)
    ensures Sanitized(r) == r
  {
    r := name;
    for k := 0 to |Reserved|
      invariant |r| == |name|
      invariant forall i :: 0 <= i < |name| ==> r[i] == if name[i] in Reserved[..k] then '_' else name[i]
    {
      ReplaceOneChar(r, Reserved[k]);
      assert forall x :: x in Reserved[..k + 1] <==> x in Reserved[..k] || x == Reserved[k] by {
        assert Reserved[..k + 1] == Reserved[..k] + [Reserved[k]];
      }
      r := Replace(r, [Reserved[k]], "_");
    }
    assert Reserved[..|Reserved|] == Reserved;
  }

  // ------------------------------------------------------------- backoff

  function Pow2(n: nat): nat {
    if n == 0 then 1 else 2 * Pow2(n - 1)
  }

  /** `min(30, 2 ** attempt)`: the seconds slept before retry `attempt + 1`. */
  function BackoffDelay(attempt: nat): nat {
    if Pow2(attempt) < 30 then Pow2(attempt) else 30
  }

  /** The six attempts wait 1, 2, 4, 8, 16 and 30 seconds; later ones 30; the delay never shrinks. */
  lemma BackoffSchedule(a: nat, b: nat)
    ensures [BackoffDelay(0), BackoffDelay(1), BackoffDelay(2), BackoffDelay(3), BackoffDelay(4), BackoffDelay(5)]
            == [1, 2, 4, 8, 16, 30]
    ensures a >= 5 ==> BackoffDelay(a) == 30
    ensures a <= b ==> BackoffDelay(a) <= BackoffDelay(b)
  {
    assert Pow2(5) == 32;
    if a >= 5 {
      Pow2Grows(5, a);
    }
    if a <= b {
      Pow2Grows(a, b);
    }
  }

  lemma {:induction false} Pow2Grows(a: nat, b: nat)
    requires a <= b
    ensures Pow2(a) <= Pow2(b)
    decreases b - a
  {
    if a < b {
      Pow2Grows(a, b - 1);
    }
  }

  // ------------------------------------------------------------- id lists

  /** The non-empty strings of `xs`, in order. */
  function NonEmpty(xs: seq<string>): seq<string>
    decreases |xs|
  {
    if xs == [] then []
    else (if xs[0] != "" then [xs[0]] else []) + NonEmpty(xs[1..])
  }

  lemma {:induction false} NonEmptyFrom(xs: seq<string>)
    ensures forall x :: x in NonEmpty(xs) ==> x != "" && x in xs
    decreases |xs|
  {
    if xs != [] {
      NonEmptyFrom(xs[1..]);
    }
  }

  lemma {:induction false} NonEmptyAll(xs: seq<string>)
    requires forall k :: 0 <= k < |xs| ==> xs[k] != ""
    ensures NonEmpty(xs) == xs
    decreases |xs|
  {
    if xs != [] {
      NonEmptyAll(xs[1..]);
    }
  }

  /** Each piece stripped. */
  function StripAll(pieces: seq<string>): (r: seq<string>)
    ensures |r| == |pieces| && forall k :: 0 <= k < |r| ==> r[k] == Strip(pieces[k])
  {
    seq(|pieces|, k requires 0 <= k < |pieces| => Strip(pieces[k]))
  }

  /**
   * Stripping the pieces again changes nothing, and each stripped piece is
   * the piece with only whitespace cut from its two ends.
   */
  lemma StripAllSettled(pieces: seq<string>)
    ensures StripAll(StripAll(pieces)) == StripAll(pieces)
    ensures forall k :: 0 <= k < |pieces| ==>
      var off := StripOffset(pieces[k]);
      var r := StripAll(pieces)[k];
      && off + |r| <= |pieces[k]| && r == pieces[k][off..off + |r|]
      && (forall i :: 0 <= i < off ==> IsSpace(pieces[k][i]))
      && (forall i :: off + |r| <= i < |pieces[k]| ==> IsSpace(pieces[k][i]))
  {
    forall k | 0 <= k < |pieces|
      ensures StripAll(StripAll(pieces))[k] == StripAll(pieces)[k]
    {
      StripIdempotent(pieces[k]);
    }
    forall k | 0 <= k < |pieces|
      ensures var off := StripOffset(pieces[k]);
        var r := StripAll(pieces)[k];
        && off + |r| <= |pieces[k]| && r == pieces[k][off..off + |r|]
        && (forall i :: 0 <= i < off ==> IsSpace(pieces[k][i]))
        && (forall i :: off + |r| <= i < |pieces[k]| ==> IsSpace(pieces[k][i]))
    {
      StripSlice(pieces[k]);
      StripRemovesSpace(pieces[k]);
    }
  }

  /** `_split_ids(val)`: the comma-separated pieces, stripped, the empty ones dropped. */
  function SplitIds(val: string): seq<string> {
    NonEmpty(StripAll(Split(val, ',')))
  }

  /** What stripping keeps of a piece without a comma has no comma either. */
  lemma StripNoComma(piece: string)
    requires ',' !in piece
    ensures ',' !in Strip(piece) && Strip(Strip(piece)) == Strip(piece)
  {
    StripIdempotent(piece);
    var off := StripOffset(piece);
    StripSlice(piece);
    var r := Strip(piece);
    assert r == piece[off..off + |r|];
  }

  lemma KeptClean(pieces: seq<string>)
    requires forall k :: 0 <= k < |pieces| ==> ',' !in pieces[k]
    ensures forall x :: x in NonEmpty(StripAll(pieces)) ==> x != "" && Strip(x) == x && ',' !in x
  {
    var stripped := StripAll(pieces);
    NonEmptyFrom(stripped);
    forall x | x in NonEmpty(stripped) ensures Strip(x) == x && ',' !in x {
      var j :| 0 <= j < |stripped| && stripped[j] == x;
      StripNoComma(pieces[j]);
    }
  }

  /** No id is empty, has surrounding whitespace or holds a comma. */
  lemma SplitIdsClean(val: string)
    ensures forall x :: x in SplitIds(val) ==> x != "" && Strip(x) == x && ',' !in x
  {
    KeptClean(Split(val, ','));
  }

  lemma CleanKept(ids: seq<string>)
    requires forall k :: 0 <= k < |ids| ==> ids[k] != "" && Strip(ids[k]) == ids[k]
    ensures NonEmpty(StripAll(ids)) == ids
  {
    assert StripAll(ids) == ids;
    NonEmptyAll(ids);
  }

  /** Listing clean ids with commas and splitting them again gives back the ids, in order. */
  lemma SplitIdsJoin(ids: seq<string>)
    requires forall k :: 0 <= k < |ids| ==> ids[k] != "" && Strip(ids[k]) == ids[k] && ',' !in ids[k]
    ensures SplitIds(Join(ids, ",")) == ids
  {
    var joined := Join(ids, ",");
    CleanKept(ids);
    if ids == [] {
      assert Split(joined, ',') == [""];
    } else {
      assert "," == [','];
      SplitJoin(ids, ',');
      assert Split(joined, ',') == ids;
    }
  }

  // ------------------------------------------------------------ multicast

  /** The LINE multicast limit, `CHUNK`. */
  const ChunkSize: nat := 500

  function Flatten(batches: seq<seq<string>>): seq<string>
    decreases |batches|
  {
    if batches == [] then [] else Flatten(batches[..|batches| - 1]) + batches[|batches| - 1]
  }

  /**
   * `for i in range(0, len(users), CHUNK): users[i:i+CHUNK]`: consecutive
   * batches, none empty, none over the limit and all but the last full,
   * whose concatenation is the user list.
   */
  method MulticastBatches(users: seq<string>) returns (batches: seq<seq<string>>)
    ensures Flatten(batches) == users
    ensures forall k :: 0 <= k < |batches| ==> 0 < |batches[k]| <= ChunkSize
    ensures forall k :: 0 <= k < |batches| - 1 ==> |batches[k]| == ChunkSize
  {
    batches := [];
    var i := 0;
    while i < |users|
      invariant i == ChunkSize * |batches| && i <= |users|
      invariant Flatten(batches) == users[..i]
      invariant forall k :: 0 <= k < |batches| ==> |batches[k]| == ChunkSize
      decreases |users| - i
    {
      var end := if i + ChunkSize < |users| then i + ChunkSize else |users|;
      var batch := users[i..end];
      assert Flatten(batches + [batch]) == Flatten(batches) + batch;
      assert users[..i] + users[i..end] == users[..end];
      batches := batches + [batch];
      if end == |users| {
        return;
      }
      i := end;
    }
  }

  /** One LINE request: a push to one id or a multicast to several users. */
  datatype Request = Push(id: string) | Multicast(ids: seq<string>)

  function Addressed(reqs: seq<Request>): seq<string>
    decreases |reqs|
  {
    if reqs == [] then []
    else
      var last := reqs[|reqs| - 1];
      Addressed(reqs[..|reqs| - 1]) + (if last.Push? then [last.id] else last.ids)
  }

  /**
   * The user part of `line_notify`: one push for a single user, batched
   * multicasts for more. Every user is addressed once, in list order, and no
   * multicast exceeds the limit.
   */
  method UserRequests(users: seq<string>) returns (reqs: seq<Request>)
    ensures Addressed(reqs) == users
    ensures forall k :: 0 <= k < |reqs| && reqs[k].Multicast? ==> 0 < |reqs[k].ids| <= ChunkSize
    ensures |users| == 1 ==> reqs == [Push(users[0])]
    ensures |users| != 1 ==> forall k :: 0 <= k < |reqs| ==> reqs[k].Multicast?
  {
    if |users| == 1 {
      reqs := [Push(users[0])];
      assert Addressed(reqs) == Addressed([]) + [users[0]];
      return;
    }
    reqs := [];
    if |users| > 1 {
      var batches := MulticastBatches(users);
      var k := 0;
      while k < |batches|
        invariant 0 <= k <= |batches| && |reqs| == k
        invariant forall j :: 0 <= j < k ==> reqs[j] == Multicast(batches[j])
        invariant Addressed(reqs) == Flatten(batches[..k])
      {
        assert batches[..k + 1][..k] == batches[..k];
        assert Addressed(reqs + [Multicast(batches[k])]) == Addressed(reqs) + batches[k];
        reqs := reqs + [Multicast(batches[k])];
        k := k + 1;
      }
      assert batches[..k] == batches;
    }
  }

  // ----------------------------------------------------------------- urls

  /** `u.lstrip("/")`. */
  function LStripSlash(u: string): (r: string)
    ensures r == [] || r[0] != '/'
    decreases |u|
  {
    if |u| > 0 && u[0] == '/' then LStripSlash(u[1..]) else u
  }

  predicate Absolute(u: string) {
    StartsWith(u, "http://") || StartsWith(u, "https://")
  }

  /**
   * `normalize_url(u)` against the configured `base` URL: "///" becomes "/",
   * an http(s) URL is then kept, anything else is joined below `base`.
   */
  function NormalizeUrl(base: string, u: string): string {
    var v := Replace(u, "///", "/");
    if Absolute(v) then v else base + "/" + LStripSlash(v)
  }

  /** Replacing a pattern that does not occur changes nothing. */
  lemma {:induction false} ReplaceAbsent(s: string, p: string, r: string)
    requires |p| > 0 && !Contains(s, p)
    ensures Replace(s, p, r) == s
    decreases |s|
  {
    if |s| >= |p| {
      assert s[..|p|] != p by {
        assert !OccursAt(s, p, 0);
      }
      assert forall i :: OccursAt(s[1..], p, i) ==> OccursAt(s, p, i + 1) by {
        forall i | OccursAt(s[1..], p, i) ensures OccursAt(s, p, i + 1) {
          assert s[1..][i..i + |p|] == s[i + 1..i + 1 + |p|];
        }
      }
      ReplaceAbsent(s[1..], p, r);
    }
  }

  /** An http(s) URL without "///" is used as it is. */
  lemma NormalizeUrlKeeps(base: string, u: string)
    requires Absolute(u) && !Contains(u, "///")
    ensures NormalizeUrl(base, u) == u
  {
    ReplaceAbsent(u, "///", "/");
  }

  /**
   * Anything that is not an http(s) URL once "///" is replaced ends up
   * below `base`, with the leading slashes of its path dropped.
   */
  lemma NormalizeUrlJoins(base: string, u: string)
    requires !Absolute(Replace(u, "///", "/"))
    ensures var r := NormalizeUrl(base, u);
      StartsWith(r, base + "/") && r[|base| + 1..] == LStripSlash(Replace(u, "///", "/"))
  {
    var v := Replace(u, "///", "/");
    var r := NormalizeUrl(base, u);
    assert r == (base + "/") + LStripSlash(v);
  }

  // --------------------------------------------------------- saving files

  /**
   * `os.path.splitext` for a name with no separator: the extension runs
   * from the last "." when some character before it is not a ".".
   */
  function SplitExt(name: string): (string, string)
    decreases |name|
  {
    var i := LastDot(name, |name|);
    if i.Some? && exists k :: 0 <= k < i.value && name[k] != '.' then (name[..i.value], name[i.value..])
    else (name, "")
  }

  /** The last "." before position `end`. */
  function LastDot(name: string, end: nat): (r: Option<nat>)
    requires end <= |name|
    ensures r.Some? ==> r.value < end && name[r.value] == '.' && forall k :: r.value < k < end ==> name[k] != '.'
    ensures r.None? ==> forall k :: 0 <= k < end ==> name[k] != '.'
    decreases end
  {
    if end == 0 then None
    else if name[end - 1] == '.' then Some(end - 1)
    else LastDot(name, end - 1)
  }

  /** The two parts put back together give the name; an extension is one "." and no other. */
  lemma SplitExtSpec(name: string)
    ensures SplitExt(name).0 + SplitExt(name).1 == name
    ensures var ext := SplitExt(name).1;
      ext == "" || (ext[0] == '.' && forall k :: 0 < k < |ext| ==> ext[k] != '.')
  {
    var i := LastDot(name, |name|);
    if i.Some? && exists k :: 0 <= k < i.value && name[k] != '.' {
      assert name[..i.value] + name[i.value..] == name;
    }
  }

  /** `f"{base}({i}){ext}"`. */
  function NumberedName(base: string, ext: string, i: nat): string {
    base + "(" + NatToStr(i) + ")" + ext
  }

  /** Different numbers give different paths. */
  lemma NumberedInjective(dir: string, base: string, ext: string, i: nat, j: nat)
    requires Child(dir, NumberedName(base, ext, i)) == Child(dir, NumberedName(base, ext, j))
    ensures i == j
  {
    var a, b := NatToStr(i), NatToStr(j);
    var pre := dir + "/" + base + "(";
    assert Child(dir, NumberedName(base, ext, i)) == pre + a + (")" + ext);
    assert Child(dir, NumberedName(base, ext, j)) == pre + b + (")" + ext);
    assert |a| == |b|;
    var n := |pre| + |a|;
    assert (pre + a + (")" + ext))[|pre|..n] == a;
    assert (pre + b + (")" + ext))[|pre|..n] == b;
    NatToStrInjective(i, j);
  }

  /**
   * The collision loop: starting at 2, the first `i` whose "base(i)ext" is
   * not a file. It ends, since the files are finitely many and the
   * candidates all differ.
   */
  method NextFree(files: map<string, string>, dir: string, base: string, ext: string)
    returns (path: string, i: nat)
    ensures i >= 2 && path == Child(dir, NumberedName(base, ext, i)) && path !in files
    ensures forall j :: 2 <= j < i ==> Child(dir, NumberedName(base, ext, j)) in files
  {
    i := 2;
    path := Child(dir, NumberedName(base, ext, i));
    ghost var tried: set<string> := {};
    while path in files
      invariant path == Child(dir, NumberedName(base, ext, i))
      invariant Tried(files, dir, base, ext, tried, i)
      decreases |files.Keys| - |tried|
    {
      TriedStep(files, dir, base, ext, tried, i);
      tried := tried + {path};
      i := i + 1;
      path := Child(dir, NumberedName(base, ext, i));
    }
  }

  /** The names numbered 2 to `i - 1` are exactly `tried`, and all of them are taken. */
  ghost predicate Tried(files: map<string, string>, dir: string, base: string, ext: string, tried: set<string>, i: nat) {
    && i >= 2 && tried <= files.Keys && |tried| == i - 2 && |tried| <= |files.Keys|
    && (forall j :: 2 <= j < i ==> Child(dir, NumberedName(base, ext, j)) in tried)
    && (forall x :: x in tried ==> exists j :: 2 <= j < i && x == Child(dir, NumberedName(base, ext, j)))
  }

  /** A taken name numbered `i` is new to `tried`, so trying it grows `tried` by one. */
  lemma TriedStep(files: map<string, string>, dir: string, base: string, ext: string, tried: set<string>, i: nat)
    requires Tried(files, dir, base, ext, tried, i) && Child(dir, NumberedName(base, ext, i)) in files
    ensures Child(dir, NumberedName(base, ext, i)) !in tried
    ensures Tried(files, dir, base, ext, tried + {Child(dir, NumberedName(base, ext, i))}, i + 1)
  {
    var path := Child(dir, NumberedName(base, ext, i));
    if path in tried {
      var j :| 2 <= j < i && path == Child(dir, NumberedName(base, ext, j));
      NumberedInjective(dir, base, ext, i, j);
      assert false;
    }
    var tried' := tried + {path};
    SubsetPaths(tried', files.Keys);
    forall x | x in tried' ensures exists j :: 2 <= j < i + 1 && x == Child(dir, NumberedName(base, ext, j)) {
      if x == path {
        assert 2 <= i < i + 1;
      }
    }
  }

  /** `sanitize_filename(f"{key}_{tag}.txt")`. */
  function FileName(key: string, tag: string): string {
    Sanitized(key + "_" + tag + ".txt")
  }

  /**
   * What `download_file` left behind: the whole text, or a failure, with
   * the text written before it when the file had already been opened
   * (None when the request failed before that).
   */
  datatype Fetch = Fetched(text: string) | Failed(partial: Option<string>)

  /**
   * One entry of the download loop; the entry is skipped when its link is
   * empty. The download is written as "<key>_<suffix>.txt" in `outDir`; a
   * failed download leaves whatever it had written there and the entry is
   * skipped. With `useFileDate` and a date found in the link or the file,
   * the file is moved to "<key>_<date>.txt", or, when that name is taken, to
   * the first free "base(i)ext" with i from 2. Nothing already on disk is
   * overwritten by the move, and the saved path holds the downloaded text.
   */
  method SaveDownload(fs: FileStore, outDir: string, key: string, link: string, suffix: string,
                      fetch: Fetch, useFileDate: bool)
    returns (saved: Option<string>)
    requires fs.Valid()
    modifies fs
    ensures fs.Valid()
    ensures link == "" ==> saved.None? && fs.files == old(fs.files)
    ensures link != "" && fetch.Failed? ==>
      && saved.None?
      && fs.files == if fetch.partial.None? then old(fs.files)
                     else old(fs.files)[Child(outDir, FileName(key, suffix)) := fetch.partial.value]
    ensures link != "" && fetch.Fetched? ==>
      var dest := Child(outDir, FileName(key, suffix));
      var w := old(fs.files)[dest := fetch.text];
      var date := if useFileDate then DetectFileDate(link, Some(fetch.text)) else "";
      var target := Child(outDir, FileName(key, date));
      && saved.Some?
      && (date == "" || target == dest ==> saved.value == dest && fs.files == w)
      && (date != "" && target != dest ==>
            && fs.files == (w - {dest})[saved.value := fetch.text]
            && (target !in w ==> saved.value == target)
            && (target in w ==>
                  saved.value !in w
                  && exists i: nat :: i >= 2 && saved.value == Child(outDir, NumberedName(SplitExt(FileName(key, date)).0, SplitExt(FileName(key, date)).1, i))
                                      && forall j :: 2 <= j < i ==> Child(outDir, NumberedName(SplitExt(FileName(key, date)).0, SplitExt(FileName(key, date)).1, j)) in w))
  {
    if link == "" {
      return None;
    }
    var fname := SanitizeFilename(key + "_" + suffix + ".txt");
    var dest := Child(outDir, fname);
    if fetch.Failed? {
      if fetch.partial.Some? {
        fs.Write(dest, fetch.partial.value);
      }
      return None;
    }
    fs.Write(dest, fetch.text);
    saved := Some(dest);
    if useFileDate {
      var detected := DetectFileDate(link, Some(fs.files[dest]));
      if detected != "" {
        var newName := SanitizeFilename(key + "_" + detected + ".txt");
        var newPath := Child(outDir, newName);
        if newPath != dest {
          if newPath in fs.files {
            var (base, ext) := SplitExt(newName);
            var i;
            newPath, i := NextFree(fs.files, outDir, base, ext);
          }
          var ok := fs.Replace(dest, newPath);
          saved := Some(newPath);
        }
      }
    }
  }
}
