/** The classification rules around file search (app/files/search_classifier.py): a label the
    user confirmed overrides the classifier, results are listed by group, previews are cut at
    3000 characters, and the feedback command `điều chỉnh <file> <label>` records a label.
    The classifier, the directory walk, the file clock, `str.lower`, `str.upper` and the MCP
    send are parameters; the feedback store is the JSON dict they read and write. */
module SearchClassifier {
  import opened Wrappers
  import opened Text

  /** The feedback store: file path to its recorded fields ("file_name", "user_label", "timestamp"). */
  type Feedback = map<string, map<string, string>>

  /** `classify_file(path, labels)`. */
  type Classifier = (string, seq<string>) -> string

  /** Python's `str.lower` or `str.upper`. Both map every cased Unicode letter ("BÁO" and "báo",
      "Đ" and "đ"), so they are parameters rather than an ASCII-only stand-in. */
  type CaseMap = string -> string

  /** The user's label for `path` may be used: it is recorded and is one of `labels`. */
  predicate HasUsableLabel(path: string, labels: seq<string>, feedback: Feedback) {
    path in feedback && "user_label" in feedback[path] && feedback[path]["user_label"] in labels
  }

  /** `get_file_classification`: the confirmed label when usable, otherwise the classifier's. */
  function GetFileClassification(path: string, labels: seq<string>, feedback: Feedback, classify: Classifier)
    : (r: string)
    ensures HasUsableLabel(path, labels, feedback) ==> r == feedback[path]["user_label"] && r in labels
    ensures !HasUsableLabel(path, labels, feedback) ==> r == classify(path, labels)
  {
    if HasUsableLabel(path, labels, feedback) then feedback[path]["user_label"] else classify(path, labels)
  }

  // ---------------------------------------------------------------- previews

  /** `content[:3000] + "..." if len(content) > 3000 else content`. */
  function Preview(content: string): (r: string)
    ensures |content| <= 3000 ==> r == content
    ensures |content| > 3000 ==> |r| == 3003 && r[..3000] == content[..3000] && r[3000..] == "..."
  {
    if |content| > 3000 then content[..3000] + "..." else content
  }

  /** A preview is its own preview: the marker lands beyond the cut. */
  lemma PreviewIdempotent(content: string)
    ensures Preview(Preview(content)) == Preview(content)
  {
    if |content| > 3000 {
      var p := Preview(content);
      assert p[..3000] + "..." == p;
    }
  }

  // ---------------------------------------------------------------- grouping and formatting

  /** One classified result: the fields `format_search_results` reads. */
  datatype Classified = Classified(filePath: string, fileName: string, tag: string, preview: string)

  /** The results whose label `keep` accepts, in order. */
  function WithLabel(results: seq<Classified>, keep: string -> bool): (r: seq<Classified>)
    ensures |r| <= |results|
    ensures forall x :: x in r <==> x in results && keep(x.tag)
  {
    if results == [] then []
    else
      var rest := WithLabel(results[1..], keep);
      assert forall x :: x in results <==> x == results[0] || x in results[1..];
      if keep(results[0].tag) then [results[0]] + rest else rest
  }

  /** The filter distributes over concatenation: results keep their relative order. */
  lemma {:induction false} WithLabelAppend(a: seq<Classified>, b: seq<Classified>, keep: string -> bool)
    ensures WithLabel(a + b, keep) == WithLabel(a, keep) + WithLabel(b, keep)
    decreases |a|
  {
    if a == [] {
      assert a + b == b;
    } else {
      var ab := a + b;
      assert ab[0] == a[0] && ab[1..] == a[1..] + b;
      WithLabelAppend(a[1..], b, keep);
    }
  }

  /** One result is kept exactly when its label is accepted. */
  lemma WithLabelSingle(x: Classified, keep: string -> bool)
    ensures WithLabel([x], keep) == if keep(x.tag) then [x] else []
  {
    assert [x][1..] == [];
  }

  predicate IsA(tag: string) { tag == "A" }
  predicate IsB(tag: string) { tag == "B" }
  predicate IsOther(tag: string) { tag != "A" && tag != "B" }

  function GroupA(results: seq<Classified>): seq<Classified> { WithLabel(results, IsA) }
  function GroupB(results: seq<Classified>): seq<Classified> { WithLabel(results, IsB) }
  function Others(results: seq<Classified>): seq<Classified> { WithLabel(results, IsOther) }

  /** The three groups split the results: together they hold each result exactly as often as
      the results do. */
  lemma {:induction false} GroupsPartition(results: seq<Classified>)
    ensures multiset(GroupA(results)) + multiset(GroupB(results)) + multiset(Others(results)) == multiset(results)
    decreases |results|
  {
    if results != [] {
      GroupsPartition(results[1..]);
      assert results == [results[0]] + results[1..];
    }
  }

  /** The three groups, each introduced by its own header. */
  datatype Group = GroupOfA | GroupOfB | OtherGroup

  /** The lines of the formatted answer: a group header, one bullet per result, the blank line
      closing a group, the explanation block and the feedback instructions. */
  datatype Block = Heading(group: Group) | Bullet(item: Classified, showLabel: bool) | Gap
                 | Analysis(explanation: string) | FeedbackHelp

  function Bullets(items: seq<Classified>, showLabel: bool): (r: seq<Block>)
    ensures |r| == |items| && forall k :: 0 <= k < |items| ==> r[k] == Bullet(items[k], showLabel)
  {
    seq(|items|, k requires 0 <= k < |items| => Bullet(items[k], showLabel))
  }

  /** A group's blocks: nothing for an empty group. */
  function SectionOf(group: Group, items: seq<Classified>): seq<Block> {
    if items == [] then [] else [Heading(group)] + Bullets(items, group == OtherGroup) + [Gap]
  }

  /** The results listed by the bullets, in order. */
  function Listed(blocks: seq<Block>): seq<Classified> {
    if blocks == [] then []
    else (if blocks[0].Bullet? then [blocks[0].item] else []) + Listed(blocks[1..])
  }

  /** The headers, in order. */
  function Headings(blocks: seq<Block>): seq<Group> {
    if blocks == [] then []
    else (if blocks[0].Heading? then [blocks[0].group] else []) + Headings(blocks[1..])
  }

  lemma ListedAppend(a: seq<Block>, b: seq<Block>)
    ensures Listed(a + b) == Listed(a) + Listed(b)
    ensures Headings(a + b) == Headings(a) + Headings(b)
  {
    ListedOfAppend(a, b);
    HeadingsOfAppend(a, b);
  }

  lemma {:induction false} ListedOfAppend(a: seq<Block>, b: seq<Block>)
    ensures Listed(a + b) == Listed(a) + Listed(b)
    decreases |a|
  {
    if a == [] {
      assert a + b == b;
    } else {
      var ab := a + b;
      assert ab[0] == a[0] && ab[1..] == a[1..] + b;
      ListedOfAppend(a[1..], b);
      var head := if a[0].Bullet? then [a[0].item] else [];
      assert Listed(ab) == head + (Listed(a[1..]) + Listed(b));
      assert head + (Listed(a[1..]) + Listed(b)) == (head + Listed(a[1..])) + Listed(b);
    }
  }

  lemma {:induction false} HeadingsOfAppend(a: seq<Block>, b: seq<Block>)
    ensures Headings(a + b) == Headings(a) + Headings(b)
    decreases |a|
  {
    if a == [] {
      assert a + b == b;
    } else {
      var ab := a + b;
      assert ab[0] == a[0] && ab[1..] == a[1..] + b;
      HeadingsOfAppend(a[1..], b);
      var head := if a[0].Heading? then [a[0].group] else [];
      assert Headings(ab) == head + (Headings(a[1..]) + Headings(b));
      assert head + (Headings(a[1..]) + Headings(b)) == (head + Headings(a[1..])) + Headings(b);
    }
  }

  lemma {:induction false} ListedBullets(items: seq<Classified>, showLabel: bool)
    ensures Listed(Bullets(items, showLabel)) == items
    ensures Headings(Bullets(items, showLabel)) == []
    decreases |items|
  {
    if items != [] {
      assert Bullets(items, showLabel)[1..] == Bullets(items[1..], showLabel);
      ListedBullets(items[1..], showLabel);
    }
  }

  /** A group's blocks list its items and carry its header exactly when it has items. */
  lemma SectionListing(group: Group, items: seq<Classified>)
    ensures Listed(SectionOf(group, items)) == items
    ensures Headings(SectionOf(group, items)) == if items == [] then [] else [group]
  {
    if items != [] {
      var bullets := Bullets(items, group == OtherGroup);
      ListedBullets(items, group == OtherGroup);
      ListedAppend([Heading(group)], bullets);
      ListedAppend([Heading(group)] + bullets, [Gap]);
    }
  }

  /** A block that is neither a header nor a bullet lists nothing. */
  lemma PlainBlock(b: Block)
    requires !b.Bullet? && !b.Heading?
    ensures Listed([b]) == [] && Headings([b]) == []
  {
    assert [b][1..] == [];
  }

  function HeadingIf(group: Group, items: seq<Classified>): seq<Group> {
    if items == [] then [] else [group]
  }

  /** The blocks of a non-empty answer: groups A, B and the others, each only when it has
      results, then the explanation and the feedback instructions. */
  function Layout(results: seq<Classified>, explanation: string): (r: seq<Block>)
    ensures Listed(r) == GroupA(results) + GroupB(results) + Others(results)
    ensures multiset(Listed(r)) == multiset(results)
    ensures Headings(r) == HeadingIf(GroupOfA, GroupA(results)) + HeadingIf(GroupOfB, GroupB(results))
                           + HeadingIf(OtherGroup, Others(results))
    ensures |r| >= 2 && r[|r| - 2..] == [Analysis(explanation), FeedbackHelp]
  {
    var a := SectionOf(GroupOfA, GroupA(results));
    var b := SectionOf(GroupOfB, GroupB(results));
    var o := SectionOf(OtherGroup, Others(results));
    var tail := [Analysis(explanation), FeedbackHelp];
    SectionListing(GroupOfA, GroupA(results));
    SectionListing(GroupOfB, GroupB(results));
    SectionListing(OtherGroup, Others(results));
    ListedAppend(a, b);
    ListedAppend(a + b, o);
    ListedAppend(a + b + o, tail);
    PlainBlock(Analysis(explanation));
    PlainBlock(FeedbackHelp);
    ListedAppend([Analysis(explanation)], [FeedbackHelp]);
    GroupsPartition(results);
    a + b + o + tail
  }

  const NotFoundText: string := "❌ Không tìm thấy file nào phù hợp."
  const Rule: string := "========================================"
  const Title: string := "🔍 KẾT QUẢ TÌM KIẾM\n" + Rule + "\n\n"

  /** The text of one block. */
  function RenderBlock(b: Block): string {
    match b
    case Heading(GroupOfA) => "✅ Đúng nội dung cần tìm (Nhóm A):\n"
    case Heading(GroupOfB) => "ℹ️ Có nội dung liên quan (Nhóm B):\n"
    case Heading(OtherGroup) => "⚠️ Các file khác:\n"
    case Bullet(item, showLabel) =>
      if showLabel then "  • " + item.fileName + " (Nhóm " + item.tag + ")\n" else "  • " + item.fileName + "\n"
    case Gap => "\n"
    case Analysis(explanation) => "\n\n📝 PHÂN TÍCH QUY TRÌNH\n" + Rule + "\n" + explanation
    case FeedbackHelp =>
      "\n\n💬 PHẢN HỒI\n" + Rule + "\n"
      + "Để điều chỉnh phân loại, hãy nhập: 'điều chỉnh [tên file] [nhãn mới]'\n"
      + "Ví dụ: điều chỉnh git-cheat-sheet.pdf B\n"
  }

  function Render(blocks: seq<Block>): string {
    if blocks == [] then "" else RenderBlock(blocks[0]) + Render(blocks[1..])
  }

  /** `format_search_results`: the fixed message for no results, otherwise the title followed
      by the text of the layout. */
  function FormatSearchResults(results: seq<Classified>, explanation: string): (r: string)
    ensures results == [] ==> r == NotFoundText
    ensures results != [] ==> r == Title + Render(Layout(results, explanation))
  {
    if results == [] then NotFoundText else Title + Render(Layout(results, explanation))
  }

  // ---------------------------------------------------------------- the feedback command

  const SyntaxError: string := "❌ Cú pháp không đúng. Vui lòng sử dụng: 'điều chỉnh [tên file] [nhãn mới]'"

  /** A parsed feedback command. */
  datatype Command = Command(fileName: string, newLabel: string)

  /** `user_input.strip().split(' ')`. */
  function Tokens(input: string): (r: seq<string>)
    ensures |r| >= 1
  {
    SplitOn(Strip(input), " ")
  }

  /** The parse of `process_rlhf_feedback` as written: at least three tokens, the file name is
      the second and the label the third, upper-cased. */
  function ParseFeedbackAsWritten(input: string, upper: CaseMap): (r: Result<Command, string>)
    ensures r.Failure? <==> |Tokens(input)| < 3
    ensures r.Failure? ==> r.error == SyntaxError
    ensures r.Success? ==> r.value == Command(Tokens(input)[1], upper(Tokens(input)[2]))
  {
    var parts := Tokens(input);
    if |parts| < 3 then Failure(SyntaxError) else Success(Command(parts[1], upper(parts[2])))
  }

  /** The two words of the command's verb. */
  const Verb1: string := "điều"
  const Verb2: string := "chỉnh"

  /** The command the messages ask for: `điều chỉnh <file> <label>`. */
  function CommandText(fileName: string, newLabel: string): string {
    Verb1 + " " + Verb2 + " " + fileName + " " + newLabel
  }

  lemma NoSpaceInWord(w: string)
    requires IsWord(w)
    ensures ' ' !in w
  {
    assert forall i :: 0 <= i < |w| ==> w[i] != ' ';
  }

  /** Words joined by single spaces split back into those words: two words, then one more
      in front. */
  lemma TwoTokens(w3: string, w4: string)
    requires ' ' !in w3 && ' ' !in w4
    ensures SplitOn(w3 + [' '] + w4, [' ']) == [w3, w4]
  {
    SplitOnAbsent(w4, ' ');
    SplitOnCons(w3, ' ', w4);
  }

  lemma ThreeTokens(w2: string, w3: string, w4: string)
    requires ' ' !in w2 && ' ' !in w3 && ' ' !in w4
    ensures SplitOn(w2 + [' '] + (w3 + [' '] + w4), [' ']) == [w2, w3, w4]
  {
    TwoTokens(w3, w4);
    SplitOnCons(w2, ' ', w3 + [' '] + w4);
  }

  lemma SplitFour(text: string, w1: string, w2: string, w3: string, w4: string)
    requires ' ' !in w1 && ' ' !in w2 && ' ' !in w3 && ' ' !in w4
    requires text == w1 + [' '] + (w2 + [' '] + (w3 + [' '] + w4))
    ensures SplitOn(text, [' ']) == [w1, w2, w3, w4]
  {
    var rest := w2 + [' '] + (w3 + [' '] + w4);
    var tail := SplitOn(rest, [' ']);
    assert tail == [w2, w3, w4] by { ThreeTokens(w2, w3, w4); }
    assert SplitOn(text, [' ']) == [w1] + tail by { SplitOnCons(w1, ' ', rest); }
  }

  /** Four words joined by single spaces split back into those words. */
  lemma FourTokens(w1: string, w2: string, w3: string, w4: string)
    requires IsWord(w1) && IsWord(w2) && IsWord(w3) && IsWord(w4)
    ensures Tokens(w1 + " " + w2 + " " + w3 + " " + w4) == [w1, w2, w3, w4]
  {
    var text := w1 + " " + w2 + " " + w3 + " " + w4;
    assert text[0] == w1[0] && text[|text| - 1] == w4[|w4| - 1];
    StripTrimmed(text);
    NoSpaceInWord(w1);
    NoSpaceInWord(w2);
    NoSpaceInWord(w3);
    NoSpaceInWord(w4);
    assert text == w1 + [' '] + (w2 + [' '] + (w3 + [' '] + w4));
    SplitFour(text, w1, w2, w3, w4);
  }

  /** The command splits into the two words of the verb, the file name and the label. */
  lemma CommandTokens(fileName: string, newLabel: string)
    requires IsWord(fileName) && IsWord(newLabel)
    ensures Tokens(CommandText(fileName, newLabel)) == [Verb1, Verb2, fileName, newLabel]
  {
    assert IsWord(Verb1) && IsWord(Verb2);
    FourTokens(Verb1, Verb2, fileName, newLabel);
  }

  /** As written, the documented command is misread: the second word of the verb becomes the
      file name and the file name becomes the label. */
  lemma {:induction false} CommandMisread(fileName: string, newLabel: string, upper: CaseMap)
    requires IsWord(fileName) && IsWord(newLabel)
    ensures ParseFeedbackAsWritten(CommandText(fileName, newLabel), upper) == Success(Command(Verb2, upper(fileName)))
  {
    CommandTokens(fileName, newLabel);
  }

  /** The example printed under the results: the file looked up is "chỉnh". */
  lemma ExampleCommandMisread(upper: CaseMap)
    ensures ParseFeedbackAsWritten(CommandText("git-cheat-sheet.pdf", "B"), upper)
            == Success(Command("chỉnh", upper("git-cheat-sheet.pdf")))
  {
    ExampleIsWord();
    CommandMisread("git-cheat-sheet.pdf", "B", upper);
  }

  lemma ExampleIsWord()
    ensures IsWord("git-cheat-sheet.pdf") && IsWord("B")
  {
  }

  /** The parse the command format intends: the verb is two tokens, so the file name is the
      third token and the newLabel the fourth. */
  function ParseFeedback(input: string, upper: CaseMap): (r: Result<Command, string>)
    ensures r.Failure? <==> |Tokens(input)| < 4
    ensures r.Failure? ==> r.error == SyntaxError
    ensures r.Success? ==> r.value == Command(Tokens(input)[2], upper(Tokens(input)[3]))
  {
    var parts := Tokens(input);
    if |parts| < 4 then Failure(SyntaxError) else Success(Command(parts[2], upper(parts[3])))
  }

  /** The intended parse reads back the file name and the upper-cased label of the command. */
  lemma {:induction false} ParseFeedbackRoundTrip(fileName: string, newLabel: string, upper: CaseMap)
    requires IsWord(fileName) && IsWord(newLabel)
    ensures ParseFeedback(CommandText(fileName, newLabel), upper) == Success(Command(fileName, upper(newLabel)))
  {
    CommandTokens(fileName, newLabel);
  }

  // ---------------------------------------------------------------- recording feedback

  /** A directory of the walk: each file's path and base name. */
  type Dir = seq<(string, string)>

  /** The base name matches the requested name once both are lower-cased. */
  predicate NameMatches(entry: (string, string), name: string, lower: CaseMap) {
    lower(entry.1) == lower(name)
  }

  /** The inner loop with its `break`: the first matching file of one directory. */
  function FirstMatch(files: Dir, name: string, lower: CaseMap): (r: Option<string>)
    ensures r.None? <==> forall k :: 0 <= k < |files| ==> !NameMatches(files[k], name, lower)
    ensures r.Some? ==> exists k :: 0 <= k < |files| && NameMatches(files[k], name, lower) && files[k].0 == r.value
                                    && forall j :: 0 <= j < k ==> !NameMatches(files[j], name, lower)
  {
    if files == [] then None
    else if NameMatches(files[0], name, lower) then Some(files[0].0)
    else
      var r := FirstMatch(files[1..], name, lower);
      assert forall k :: 1 <= k < |files| ==> files[k] == files[1..][k - 1];
      if r.Some? then
        var k :| 0 <= k < |files| - 1 && NameMatches(files[1..][k], name, lower) && files[1..][k].0 == r.value
                 && forall j :: 0 <= j < k ==> !NameMatches(files[1..][j], name, lower);
        assert NameMatches(files[k + 1], name, lower) && files[k + 1].0 == r.value;
        assert forall j :: 0 <= j < k + 1 ==> !NameMatches(files[j], name, lower);
        r
      else r
  }

  /** The `os.walk` search. The `break` leaves only the inner loop, so a match in a later
      directory replaces an earlier one: the result is the first match of the last directory
      that has one. */
  function FindFile(dirs: seq<Dir>, name: string, lower: CaseMap): (r: Option<string>)
    ensures r.None? <==> forall d :: 0 <= d < |dirs| ==> FirstMatch(dirs[d], name, lower).None?
    ensures r.Some? ==> exists d :: 0 <= d < |dirs| && r == FirstMatch(dirs[d], name, lower)
                                    && forall e :: d < e < |dirs| ==> FirstMatch(dirs[e], name, lower).None?
    decreases |dirs|
  {
    if dirs == [] then None
    else
      var last := FirstMatch(dirs[|dirs| - 1], name, lower);
      if last.Some? then last
      else
        var init := dirs[..|dirs| - 1];
        var r := FindFile(init, name, lower);
        assert forall d :: 0 <= d < |dirs| - 1 ==> dirs[d] == init[d];
        if r.Some? then
          var d :| 0 <= d < |init| && r == FirstMatch(init[d], name, lower)
                   && forall e :: d < e < |init| ==> FirstMatch(init[e], name, lower).None?;
          LaterDirsMiss(dirs, init, name, d, lower);
          r
        else r
  }

  /** Misses in the directories after `d` of all but the last, and in the last, are misses in
      every directory after `d`. */
  lemma LaterDirsMiss(dirs: seq<Dir>, init: seq<Dir>, name: string, d: nat, lower: CaseMap)
    requires d < |dirs| - 1 && init == dirs[..|dirs| - 1]
    requires FirstMatch(dirs[|dirs| - 1], name, lower).None?
    requires forall e :: d < e < |init| ==> FirstMatch(init[e], name, lower).None?
    ensures forall e :: d < e < |dirs| ==> FirstMatch(dirs[e], name, lower).None?
  {
    forall e | d < e < |dirs|
      ensures FirstMatch(dirs[e], name, lower).None?
    {
      if e < |dirs| - 1 {
        assert init[e] == dirs[e];
      }
    }
  }

  /** The two nested loops of the search, with the inner `break`. */
  method Walk(dirs: seq<Dir>, name: string, lower: CaseMap) returns (found: Option<string>)
    ensures found == FindFile(dirs, name, lower)
  {
    found := None;
    var d := 0;
    while d < |dirs|
      invariant 0 <= d <= |dirs|
      invariant found == FindFile(dirs[..d], name, lower)
    {
      var files := dirs[d];
      var k := 0;
      while k < |files|
        invariant 0 <= k <= |files|
        invariant FirstMatch(files, name, lower) == FirstMatch(files[k..], name, lower)
        invariant found == FindFile(dirs[..d], name, lower)
      {
        if NameMatches(files[k], name, lower) {
          found := Some(files[k].0);
          break;
        }
        k := k + 1;
      }
      assert dirs[..d + 1][..d] == dirs[..d];
      d := d + 1;
    }
    assert dirs[..|dirs|] == dirs;
  }

  /** The record written for a found file. */
  function Recorded(feedback: Feedback, path: string, cmd: Command, stamp: string): (r: Feedback)
    ensures r.Keys == feedback.Keys + {path}
    ensures "user_label" in r[path] && r[path]["user_label"] == cmd.newLabel
    ensures "file_name" in r[path] && r[path]["file_name"] == cmd.fileName
    ensures forall p :: p in feedback && p != path ==> r[p] == feedback[p]
  {
    feedback[path := map["file_name" := cmd.fileName, "user_label" := cmd.newLabel, "timestamp" := stamp]]
  }

  function NotFoundMessage(fileName: string): string {
    "❌ Không tìm thấy file: " + fileName
  }

  function ResultMessage(cmd: Command, sendError: Option<string>): string {
    if sendError.None? then "✅ Đã cập nhật nhãn của file " + cmd.fileName + " thành " + cmd.newLabel
    else "⚠️ Đã lưu phản hồi nhưng gặp lỗi khi gửi metadata: " + sendError.value
  }

  /** `process_rlhf_feedback` with the intended parse. `modified` gives a file's modification
      time as text and `sendError` the failure of the metadata send, if it fails. Returns the
      message and the feedback store: only a well-formed command for a file that exists writes
      anything, and then only that file's record. */
  function ProcessFeedback(input: string, dirs: seq<Dir>, feedback: Feedback,
                           modified: string -> string, sendError: Option<string>,
                           lower: CaseMap, upper: CaseMap): (r: (string, Feedback))
    ensures ParseFeedback(input, upper).Failure? ==> r == (SyntaxError, feedback)
    ensures ParseFeedback(input, upper).Success? && FindFile(dirs, ParseFeedback(input, upper).value.fileName, lower).None? ==>
              r == (NotFoundMessage(ParseFeedback(input, upper).value.fileName), feedback)
    ensures ParseFeedback(input, upper).Success? && FindFile(dirs, ParseFeedback(input, upper).value.fileName, lower).Some? ==>
              var path := FindFile(dirs, ParseFeedback(input, upper).value.fileName, lower).value;
              r.1 == Recorded(feedback, path, ParseFeedback(input, upper).value, modified(path))
  {
    match ParseFeedback(input, upper)
    case Failure(e) => (e, feedback)
    case Success(cmd) =>
      match FindFile(dirs, cmd.fileName, lower)
      case None => (NotFoundMessage(cmd.fileName), feedback)
      case Some(path) => (ResultMessage(cmd, sendError), Recorded(feedback, path, cmd, modified(path)))
  }

  /** Feedback decides later classifications: once a command for a found file is recorded, that
      file is classified with the recorded newLabel whenever it is one of the labels, and every
      other file as before. */
  lemma FeedbackOverridesClassifier(fileName: string, newLabel: string, dirs: seq<Dir>, feedback: Feedback,
                                    modified: string -> string, sendError: Option<string>,
                                    labels: seq<string>, classify: Classifier, other: string,
                                    lower: CaseMap, upper: CaseMap)
    requires IsWord(fileName) && IsWord(newLabel)
    requires FindFile(dirs, fileName, lower).Some?
    ensures var path := FindFile(dirs, fileName, lower).value;
      var after := ProcessFeedback(CommandText(fileName, newLabel), dirs, feedback, modified, sendError, lower, upper).1;
      && GetFileClassification(path, labels, after, classify)
         == (if upper(newLabel) in labels then upper(newLabel) else classify(path, labels))
      && (other != path ==> GetFileClassification(other, labels, after, classify)
                            == GetFileClassification(other, labels, feedback, classify))
  {
    var input := CommandText(fileName, newLabel);
    var cmd := Command(fileName, upper(newLabel));
    assert ParseFeedback(input, upper) == Success(cmd) by {
      ParseFeedbackRoundTrip(fileName, newLabel, upper);
    }
    var path := FindFile(dirs, fileName, lower).value;
    var after := ProcessFeedback(input, dirs, feedback, modified, sendError, lower, upper).1;
    assert after == Recorded(feedback, path, cmd, modified(path));
    RecordedClassification(feedback, path, cmd, modified(path), labels, classify, other);
  }

  /** A recorded label decides the classification of its path and of no other. */
  lemma RecordedClassification(feedback: Feedback, path: string, cmd: Command, stamp: string,
                               labels: seq<string>, classify: Classifier, other: string)
    ensures var after := Recorded(feedback, path, cmd, stamp);
      && GetFileClassification(path, labels, after, classify)
         == (if cmd.newLabel in labels then cmd.newLabel else classify(path, labels))
      && (other != path ==> GetFileClassification(other, labels, after, classify)
                            == GetFileClassification(other, labels, feedback, classify))
  {
  }
}
