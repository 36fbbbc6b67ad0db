/**
 * Alert.py: the watcher of the Watch module, plus LINE push messages. A
 * folder run that counts the keyword at least once pushes a notice; a run
 * that fails pushes an error notice. The message text and the HTTP request
 * are not modelled, only which notice is due and whether `line_push` would
 * send it.
 */
module Alert {
  import opened Wrappers
  import opened Strings
  import opened Table
  import opened Partition
  import opened Folder
  import opened Files
  import opened Steps
  import opened Negative
  import opened Dates
  import opened Watch

  /** A LINE message: the keyword was found, or processing a folder failed. */
  datatype Notice =
    | Found(folderName: string, count: nat, docnums: nat)
    | Failed(folderName: string, path: string)

  /**
   * The notice a folder run ends with: the found notice of `process_folder`
   * when the count is positive, the error notice of `on_created` when the
   * run raised, and none when it was skipped or found nothing.
   */
  function NoticeFor(folderName: string, r: Option<Result<Summary, string>>): (n: Option<Notice>)
    ensures n.Some? <==> r.Some? && (r.value.Err? || r.value.value.keywordCount > 0)
    ensures n.Some? && r.value.Ok? ==>
      n.value == Found(folderName, r.value.value.keywordCount, r.value.value.docnumCount)
    ensures n.Some? && r.value.Err? ==> n.value == Failed(folderName, r.value.error)
  {
    match r
    case None => None
    case Some(Err(p)) => Some(Failed(folderName, p))
    case Some(Ok(s)) => if s.keywordCount > 0 then Some(Found(folderName, s.keywordCount, s.docnumCount)) else None
  }

  /** `line_push` sends only when both the access token and the recipient are configured. */
  predicate Sends(token: string, toId: string) {
    token != "" && toId != ""
  }

  /**
   * `on_created` with its notices: the folder step of the watcher, then the
   * notice due for its outcome, sent when LINE is configured.
   */
  method OnCreated(fs: FileStore, isDirectory: bool, parent: string, name: string,
                   headerRows: int, keyword: string, sniff: string -> Option<char>, token: string, toId: string)
    returns (handled: bool, sap1: Option<string>, sap2: Option<string>, r: Option<Result<Summary, string>>,
             sent: Option<Notice>)
    requires fs.Valid()
    modifies fs
    ensures fs.Valid()
    ensures handled <==> isDirectory && FolderNameMatches(name)
    ensures !handled ==> r.None? && fs.files == old(fs.files)
    ensures handled ==>
      var folder := Child(parent, name);
      && (sap1.Some? ==> IsPick(old(fs.files), folder, Sap1Rule, sap1.value))
      && (sap2.Some? ==> IsPick(old(fs.files), folder, Sap2Rule, sap2.value))
      && (r.None? <==> sap1.None? || sap2.None?)
      && (r.None? ==> fs.files == old(fs.files))
      && (r.Some? ==>
            (r.value, fs.files) == Outcome(old(fs.files), folder, sap1.value, sap2.value, headerRows, keyword, false, sniff))
    ensures sent == if Sends(token, toId) then NoticeFor(name, r) else None
  {
    handled, sap1, sap2, r := Watch.OnCreated(fs, isDirectory, parent, name, headerRows, keyword, sniff);
    var notice := NoticeFor(name, r);
    sent := if Sends(token, toId) then notice else None;
  }

  /** A sum of positive counts is positive exactly when there is at least one. */
  lemma {:induction false} TotalPositive(lines: seq<string>, keyword: string, ci: bool)
    requires forall l :: l in lines ==> Occurrences(l, keyword, ci) > 0
    ensures TotalOccurrences(lines, keyword, ci) > 0 <==> |lines| > 0
    decreases |lines|
  {
    if |lines| > 0 {
      var init := lines[..|lines| - 1];
      assert lines[|lines| - 1] in lines;
      forall l | l in init ensures Occurrences(l, keyword, ci) > 0 {
        assert l in lines;
      }
      TotalPositive(init, keyword, ci);
    }
  }

  /** The keyword total of some lines is positive exactly when one of them holds the keyword. */
  lemma TotalPositiveWhenMarked(body: seq<string>, keyword: string, ci: bool)
    ensures TotalOccurrences(body, keyword, ci) > 0 <==> exists l :: l in body && Occurrences(l, keyword, ci) > 0
  {
    var marked := Marked(body, keyword, ci);
    KeywordPartition(body, keyword, ci);
    TotalOverMarked(body, keyword, ci);
    TotalPositive(marked, keyword, ci);
    forall l | l in body && Occurrences(l, keyword, ci) > 0 ensures l in marked {
      FilterMember(body, HasKeyword(keyword, ci), l);
    }
  }

  /**
   * The keyword total of the sap1 step, which decides the found notice, is
   * positive exactly when some body line of the sap1 file holds the keyword.
   */
  lemma FoundExactlyWhenMarked(text: string, headerRows: nat, keyword: string, ci: bool, sniff: string -> Option<char>)
    requires SplitText(text, headerRows, keyword, ci, Trimmed, sniff).Some?
    ensures SplitText(text, headerRows, keyword, ci, Trimmed, sniff).value.count > 0 <==>
      exists l :: l in ReadLayout(text, headerRows, sniff).value.body && Occurrences(l, keyword, ci) > 0
  {
    var body := ReadLayout(text, headerRows, sniff).value.body;
    assert SplitText(text, headerRows, keyword, ci, Trimmed, sniff).value.count == TotalOccurrences(body, keyword, ci);
    TotalPositiveWhenMarked(body, keyword, ci);
  }
}
