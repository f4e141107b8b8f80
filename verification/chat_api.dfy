/** The pure parts of the upload and conversation endpoints (chatbot_backend/app/api/chat_api.py):
    choosing a free stored name, the extension field, role clearing, one document per chunk,
    the two file groups and the greeting of a new conversation. */
module ChatApi {
  import opened Wrappers
  import opened Text
  import WordChunking
  import Message

  // ---------------------------------------------------------------- file names

  /** The index of the last `c` in `s`, or -1. */
  function LastIndexOf(s: string, c: char): (i: int)
    ensures -1 <= i < |s|
    ensures i >= 0 ==> s[i] == c
    ensures forall j :: i < j < |s| ==> s[j] != c
  {
    if s == [] then -1
    else if s[|s| - 1] == c then |s| - 1
    else LastIndexOf(s[..|s| - 1], c)
  }

  /** `os.path.splitext(p)`: the extension starts at the last dot of the last path component,
      unless everything before that dot in the component is dots (".bashrc", "..."). */
  function SplitExt(p: string): (r: (string, string))
    ensures r.0 + r.1 == p
    ensures r.1 == [] || (r.1[0] == '.' && '.' !in r.1[1..] && '/' !in r.1)
  {
    var sepIndex := LastIndexOf(p, '/');
    var dotIndex := LastIndexOf(p, '.');
    if dotIndex > sepIndex && exists k :: sepIndex + 1 <= k < dotIndex && p[k] != '.' then
      assert p[..dotIndex] + p[dotIndex..] == p;
      (p[..dotIndex], p[dotIndex..])
    else (p, [])
  }

  /** An ordinary name splits at its last dot. */
  lemma SplitExtAtLastDot()
    ensures SplitExt("report.pdf") == ("report", ".pdf")
  {
    var p := "report.pdf";
    assert LastIndexOf(p, '.') == 6 by {
      LastIndexOfIs(p, '.', 6);
    }
    assert LastIndexOf(p, '/') == -1 by {
      LastIndexOfAbsent(p, '/');
    }
    assert p[0] != '.';
    assert p[..6] == "report" && p[6..] == ".pdf";
  }

  /** A name whose only dot leads it has no extension. */
  lemma SplitExtLeadingDot()
    ensures SplitExt(".bashrc") == (".bashrc", "")
  {
    var p := ".bashrc";
    assert LastIndexOf(p, '.') == 0 by {
      LastIndexOfIs(p, '.', 0);
    }
  }

  /** The text after the last dot, or the whole name when it has none. */
  function AfterLastDot(name: string): (ext: string)
    ensures '.' !in ext
    ensures '.' !in name ==> ext == name
    ensures '.' in name ==> EndsWith(name, "." + ext)
  {
    var i := LastIndexOf(name, '.');
    if i < 0 then
      assert forall j :: 0 <= j < |name| ==> name[j] != '.';
      AfterLastOf(name, '.')
    else
      assert name[|name| - |name[i + 1..]| - 1..] == "." + name[i + 1..];
      AfterLastOf(name, '.')
  }

  /** `filename.split(".")[-1]`, the `extension` field of an upload. */
  function Extension(name: string): (ext: string)
    ensures ext == AfterLastDot(name)
  {
    var parts := SplitOn(name, ".");
    SplitOnLast(name, '.');
    parts[|parts| - 1]
  }

  /** The last piece of `s.split(c)` is what follows the last `c`. */
  lemma {:induction false} SplitOnLast(s: string, c: char)
    ensures var parts := SplitOn(s, [c]); parts[|parts| - 1] == AfterLastOf(s, c)
    decreases |s|
  {
    match IndexOf(s, [c])
    case None =>
      NoOccurrence(s, c);
    case Some(i) =>
      assert s[i..i + 1] == [c];
      SplitOnLast(s[i + 1..], c);
      AfterLastOfSuffix(s, c, i);
      SplitOnAfter(s, c, i);
  }

  /** Without an occurrence of `c`, the text is its own last piece and follows no `c`. */
  lemma NoOccurrence(s: string, c: char)
    requires IndexOf(s, [c]).None?
    ensures var parts := SplitOn(s, [c]); parts[|parts| - 1] == AfterLastOf(s, c)
  {
    assert SplitOn(s, [c]) == [s];
    forall j | 0 <= j < |s| ensures s[j] != c {
      assert !OccursAt(s, [c], j);
      assert s[j..j + 1] == [s[j]];
    }
    LastIndexOfAbsent(s, c);
  }

  /** From the first `c` on, the last piece is that of the text after it. */
  lemma SplitOnAfter(s: string, c: char, i: nat)
    requires IndexOf(s, [c]) == Some(i)
    ensures var parts := SplitOn(s, [c]); var tail := SplitOn(s[i + 1..], [c]);
      parts[|parts| - 1] == tail[|tail| - 1]
  {
    var sep := [c];
    assert OccursAt(s, sep, i);
    var rest := s[i + 1..];
    assert |sep| == 1 && s[i + |sep|..] == rest;
    SplitOnUnfold(s, sep, i);
    LastOfCons(SplitOn(s, sep), s[..i], SplitOn(rest, sep));
  }

  lemma SplitOnUnfold(s: string, sep: string, i: nat)
    requires |sep| > 0 && IndexOf(s, sep) == Some(i)
    ensures SplitOn(s, sep) == [s[..i]] + SplitOn(s[i + |sep|..], sep)
  {
  }

  lemma LastOfCons(parts: seq<string>, head: string, tail: seq<string>)
    requires |tail| >= 1 && parts == [head] + tail
    ensures parts[|parts| - 1] == tail[|tail| - 1]
  {
  }

  /** `AfterLastDot` for any separator character. */
  function AfterLastOf(s: string, c: char): string {
    var i := LastIndexOf(s, c);
    if i < 0 then s else s[i + 1..]
  }

  lemma AfterLastOfSuffix(s: string, c: char, i: nat)
    requires i < |s| && s[i] == c
    ensures AfterLastOf(s, c) == AfterLastOf(s[i + 1..], c)
  {
    var rest := s[i + 1..];
    var j := LastIndexOf(rest, c);
    if j >= 0 {
      assert forall k :: i + 1 + j < k < |s| ==> s[k] == rest[k - i - 1];
      LastIndexOfIs(s, c, i + 1 + j);
      assert s[i + 1 + j + 1..] == rest[j + 1..];
    } else {
      assert forall k :: i < k < |s| ==> s[k] == rest[k - i - 1];
      LastIndexOfIs(s, c, i);
    }
  }

  /** The last `c` is the one at `i` when none follows it. */
  lemma LastIndexOfIs(s: string, c: char, i: nat)
    requires i < |s| && s[i] == c
    requires forall k :: i < k < |s| ==> s[k] != c
    ensures LastIndexOf(s, c) == i
    decreases |s|
  {
    if i < |s| - 1 {
      LastIndexOfIs(s[..|s| - 1], c, i);
    }
  }

  lemma LastIndexOfAbsent(s: string, c: char)
    requires c !in s
    ensures LastIndexOf(s, c) == -1
  {
    if s != [] {
      assert s[|s| - 1] in s;
      LastIndexOfAbsent(s[..|s| - 1], c);
    }
  }

  lemma ExtensionExamples()
    ensures Extension("report.pdf") == "pdf"
    ensures Extension("notes") == "notes"
  {
    assert LastIndexOf("report.pdf", '.') == 6 by {
      LastIndexOfIs("report.pdf", '.', 6);
    }
    assert LastIndexOf("notes", '.') == -1;
  }

  // ---------------------------------------------------------------- the rename loop

  /** `f"{base}({k}){ext}"`, the k-th candidate for a taken name. */
  function Candidate(base: string, ext: string, k: nat): (r: string)
    ensures |r| == |base| + |NatToString(k)| + 2 + |ext|
  {
    base + "(" + NatToString(k) + ")" + ext
  }

  /** Different counters give different candidates. */
  lemma CandidatesDiffer(base: string, ext: string, j: nat, k: nat)
    requires j != k
    ensures Candidate(base, ext, j) != Candidate(base, ext, k)
  {
    var cj := Candidate(base, ext, j);
    var ck := Candidate(base, ext, k);
    if |cj| == |ck| {
      var a := |base| + 1;
      var n := |NatToString(j)|;
      assert cj[a..a + n] == NatToString(j);
      assert ck[a..a + n] == NatToString(k);
      ParseNatToString(j);
      ParseNatToString(k);
    }
  }

  /** The candidates tried before counter `n`: those with counters 1 to n - 1. */
  ghost function CandidatesBelow(base: string, ext: string, n: nat): (r: set<string>)
    ensures forall j :: 1 <= j < n ==> Candidate(base, ext, j) in r
  {
    if n <= 1 then {} else CandidatesBelow(base, ext, n - 1) + {Candidate(base, ext, n - 1)}
  }

  /** There are `n - 1` of them, because different counters give different names. */
  lemma {:induction false} CandidatesBelowCount(base: string, ext: string, n: nat)
    requires n >= 1
    ensures |CandidatesBelow(base, ext, n)| == n - 1
  {
    if n > 1 {
      CandidatesBelowCount(base, ext, n - 1);
      NotBelow(base, ext, n - 1, n - 1);
    }
  }

  lemma {:induction false} NotBelow(base: string, ext: string, n: nat, k: nat)
    requires k >= n
    ensures Candidate(base, ext, k) !in CandidatesBelow(base, ext, n)
    decreases n
  {
    if n > 1 {
      NotBelow(base, ext, n - 1, k);
      CandidatesDiffer(base, ext, k, n - 1);
    }
  }

  lemma {:induction false} CandidatesBelowTaken(base: string, ext: string, n: nat, taken: set<string>)
    requires forall j :: 1 <= j < n ==> Candidate(base, ext, j) in taken
    ensures CandidatesBelow(base, ext, n) <= taken
    decreases n
  {
    if n > 1 {
      CandidatesBelowTaken(base, ext, n - 1, taken);
    }
  }

  lemma SubsetSmaller(a: set<string>, b: set<string>)
    requires a <= b
    ensures |a| <= |b|
  {
    assert b == a + (b - a);
  }

  /** The name an upload is stored under, given the names already in the upload directory:
      the name itself when it is free, otherwise the first free `base(k)ext` for k = 1, 2, ...
      The result says which: `counter` is 0 for the name itself. */
  method StoredName(name: string, existing: set<string>) returns (stored: string, counter: nat)
    ensures stored !in existing
    ensures counter == 0 <==> name !in existing
    ensures counter == 0 ==> stored == name
    ensures counter > 0 ==> stored == Candidate(SplitExt(name).0, SplitExt(name).1, counter)
    ensures forall j :: 1 <= j < counter ==> Candidate(SplitExt(name).0, SplitExt(name).1, j) in existing
  {
    var (base, ext) := SplitExt(name);
    stored := base + ext;
    counter := 0;
    var accumulator: nat := 1;
    while stored in existing
      invariant accumulator >= 1
      invariant counter == 0 ==> stored == name && accumulator == 1
      invariant counter > 0 ==> stored == Candidate(base, ext, counter) && accumulator == counter + 1
      invariant forall j :: 1 <= j < accumulator - 1 ==> Candidate(base, ext, j) in existing
      invariant counter > 0 ==> name in existing
      decreases |existing| - (accumulator - 1)
    {
      CandidatesBelowTaken(base, ext, accumulator, existing);
      CandidatesBelowCount(base, ext, accumulator);
      SubsetSmaller(CandidatesBelow(base, ext, accumulator), existing);
      stored := Candidate(base, ext, accumulator);
      counter := accumulator;
      accumulator := accumulator + 1;
    }
  }

  /** The free name is unique: no smaller counter gives a free candidate, so two runs agree. */
  lemma StoredNameUnique(base: string, ext: string, existing: set<string>, k1: nat, k2: nat)
    requires k1 >= 1 && k2 >= 1
    requires Candidate(base, ext, k1) !in existing && Candidate(base, ext, k2) !in existing
    requires forall j :: 1 <= j < k1 ==> Candidate(base, ext, j) in existing
    requires forall j :: 1 <= j < k2 ==> Candidate(base, ext, j) in existing
    ensures k1 == k2
  {
    assert !(k1 < k2) && !(k2 < k1);
  }

  // ---------------------------------------------------------------- one upload

  /** The administrator's user name, the first spelling of `RoleName.ADMIN` ("admin|Admin"). */
  const Admin := "admin"

  /** Only the administrator may grant roles: anyone else's uploads carry none. */
  function GrantedRoles(username: string, allowedRoles: seq<string>): (roles: seq<string>)
    ensures username == Admin ==> roles == allowedRoles
    ensures username != Admin ==> roles == []
  {
    if username != Admin then [] else allowedRoles
  }

  /** A vector-store document: a chunk and the stored name it came from. */
  datatype Document = Document(content: string, filename: string)

  /** One document per chunk, each tagged with the stored file name. */
  function Documents(chunks: seq<string>, stored: string): (docs: seq<Document>)
    ensures |docs| == |chunks|
    ensures forall i :: 0 <= i < |docs| ==> docs[i].filename == stored
  {
    seq(|chunks|, i requires 0 <= i < |chunks| => Document(chunks[i], stored))
  }

  function Contents(docs: seq<Document>): (chunks: seq<string>)
    ensures |chunks| == |docs|
  {
    seq(|docs|, i requires 0 <= i < |docs| => docs[i].content)
  }

  /** The documents carry exactly the chunks, in order. */
  lemma DocumentsKeepChunks(chunks: seq<string>, stored: string)
    ensures Contents(Documents(chunks, stored)) == chunks
  {
  }

  /** The file row saved for an upload (`FileSystem`); its original name is the stored name. */
  datatype FileRecord = FileRecord(name: string, originalName: string, extension: string, username: string)

  /** What one upload produces. */
  datatype Upload = Upload(file: FileRecord, roles: seq<string>, documents: seq<Document>)

  /** An uploaded file: its client-side name and the text the loader reads from it. */
  datatype Incoming = Incoming(filename: string, text: string)

  /** What `upload_files` records for one incoming file stored under `u.file.name`. */
  predicate Uploaded(u: Upload, incoming: Incoming, username: string, allowedRoles: seq<string>,
                     isWord: WordChunking.WordClass)
  {
    && u.file.originalName == u.file.name
    && u.file.extension == Extension(incoming.filename)
    && u.file.username == username
    && u.roles == GrantedRoles(username, allowedRoles)
    && Contents(u.documents) == WordChunking.Preprocess(incoming.text, isWord)
    && forall d :: d in u.documents ==> d.filename == u.file.name
  }

  /** The record of one file stored under `stored`, with the roles left after clearing. */
  function UploadOne(username: string, incoming: Incoming, allowedRoles: seq<string>, stored: string,
                     isWord: WordChunking.WordClass): (u: Upload)
    ensures u.file.name == stored
    ensures Uploaded(u, incoming, username, allowedRoles, isWord)
  {
    var chunks := WordChunking.Preprocess(incoming.text, isWord);
    DocumentsKeepChunks(chunks, stored);
    Upload(FileRecord(stored, stored, Extension(incoming.filename), username),
           GrantedRoles(username, allowedRoles), Documents(chunks, stored))
  }

  /** The stored names of a list of uploads. */
  function Names(saved: seq<Upload>): (names: seq<string>)
    ensures |names| == |saved|
    ensures forall i :: 0 <= i < |saved| ==> names[i] == saved[i].file.name
  {
    seq(|saved|, i requires 0 <= i < |saved| => saved[i].file.name)
  }

  /** `stored` is the name the rename loop picks for `name` when `taken` are the names in use:
      the name itself when free, otherwise the first free `base(k)ext`. */
  ghost predicate IsStoredName(stored: string, name: string, taken: set<string>) {
    var (base, ext) := SplitExt(name);
    && stored !in taken
    && (name !in taken ==> stored == name)
    && (name in taken ==> exists k: nat :: k >= 1 && stored == Candidate(base, ext, k)
                                          && forall j :: 1 <= j < k ==> Candidate(base, ext, j) in taken)
  }

  /** The names in use once the names in `stored` have been taken. */
  function Taken(existing: set<string>, stored: seq<string>): (r: set<string>)
    ensures forall x :: x in r <==> x in existing || x in stored
  {
    if stored == [] then existing
    else Taken(existing, stored[..|stored| - 1]) + {stored[|stored| - 1]}
  }

  /** What `StoredName` promises is the rename rule. */
  lemma StoredNameIs(name: string, existing: set<string>, stored: string, counter: nat)
    requires stored !in existing
    requires counter == 0 <==> name !in existing
    requires counter == 0 ==> stored == name
    requires counter > 0 ==> stored == Candidate(SplitExt(name).0, SplitExt(name).1, counter)
    requires forall j :: 1 <= j < counter ==> Candidate(SplitExt(name).0, SplitExt(name).1, j) in existing
    ensures IsStoredName(stored, name, existing)
  {
  }

  /** Adding one more stored name leaves the names in use before each earlier file as they were. */
  lemma TakenGrows(existing: set<string>, names: seq<string>, stored: string, files: seq<Incoming>)
    requires |names| < |files|
    requires forall i :: 0 <= i < |names| ==> IsStoredName(names[i], files[i].filename, Taken(existing, names[..i]))
    requires IsStoredName(stored, files[|names|].filename, Taken(existing, names))
    ensures var grown := names + [stored];
      forall i :: 0 <= i < |grown| ==> IsStoredName(grown[i], files[i].filename, Taken(existing, grown[..i]))
  {
    var grown := names + [stored];
    assert grown[..|names|] == names;
    forall i | 0 <= i < |names|
      ensures IsStoredName(grown[i], files[i].filename, Taken(existing, grown[..i]))
    {
      assert grown[..i] == names[..i] && grown[i] == names[i];
    }
  }

  /** The rename loop over a list of files: each gets a free name, which is then taken. */
  method StoreNames(files: seq<Incoming>, existing: set<string>) returns (names: seq<string>, taken: set<string>)
    ensures |names| == |files|
    ensures taken == Taken(existing, names)
    ensures forall i :: 0 <= i < |names| ==> names[i] !in existing
    ensures forall i, j :: 0 <= i < j < |names| ==> names[i] != names[j]
    ensures forall i :: 0 <= i < |names| ==> IsStoredName(names[i], files[i].filename, Taken(existing, names[..i]))
  {
    names := [];
    taken := existing;
    for n := 0 to |files|
      invariant |names| == n
      invariant taken == Taken(existing, names)
      invariant forall i :: 0 <= i < |names| ==> names[i] !in existing
      invariant forall i, j :: 0 <= i < j < |names| ==> names[i] != names[j]
      invariant forall i :: 0 <= i < n ==> IsStoredName(names[i], files[i].filename, Taken(existing, names[..i]))
    {
      var stored, counter := StoredName(files[n].filename, taken);
      StoredNameIs(files[n].filename, taken, stored, counter);
      TakenGrows(existing, names, stored, files);
      FreshName(existing, names, stored);
      names := names + [stored];
      taken := taken + {stored};
    }
  }

  /** A name outside the names in use keeps the stored names new and distinct. */
  lemma FreshName(existing: set<string>, names: seq<string>, stored: string)
    requires stored !in Taken(existing, names)
    requires forall i :: 0 <= i < |names| ==> names[i] !in existing
    requires forall i, j :: 0 <= i < j < |names| ==> names[i] != names[j]
    ensures var grown := names + [stored];
      && Taken(existing, grown) == Taken(existing, names) + {stored}
      && (forall i :: 0 <= i < |grown| ==> grown[i] !in existing)
      && forall i, j :: 0 <= i < j < |grown| ==> grown[i] != grown[j]
  {
    var grown := names + [stored];
    assert grown[..|grown| - 1] == names;
    assert forall i :: 0 <= i < |names| ==> names[i] in names;
  }

  /** `upload_files` for a list of files: each is stored under a free name, which is then
      taken, its text is chunked with the word chunker, and the file row is recorded. */
  method UploadFiles(username: string, files: seq<Incoming>, allowedRoles: seq<string>,
                     existing: set<string>, isWord: WordChunking.WordClass)
    returns (saved: seq<Upload>, taken: set<string>)
    ensures |saved| == |files|
    ensures forall x :: x in taken <==> x in existing || x in Names(saved)
    ensures forall i :: 0 <= i < |saved| ==> saved[i].file.name !in existing
    ensures forall i, j :: 0 <= i < j < |saved| ==> saved[i].file.name != saved[j].file.name
    ensures forall i :: 0 <= i < |saved| ==> Uploaded(saved[i], files[i], username, allowedRoles, isWord)
    ensures forall i :: 0 <= i < |saved| ==>
              IsStoredName(Names(saved)[i], files[i].filename, Taken(existing, Names(saved)[..i]))
  {
    var names;
    names, taken := StoreNames(files, existing);
    saved := Uploads(username, files, allowedRoles, names, isWord);
  }

  /** The records of files stored under the given names, one per file. */
  function Uploads(username: string, files: seq<Incoming>, allowedRoles: seq<string>, names: seq<string>,
                   isWord: WordChunking.WordClass): (saved: seq<Upload>)
    requires |names| == |files|
    ensures |saved| == |files| && Names(saved) == names
    ensures forall i :: 0 <= i < |saved| ==> Uploaded(saved[i], files[i], username, allowedRoles, isWord)
  {
    var saved := seq(|files|, i requires 0 <= i < |files| => UploadOne(username, files[i], allowedRoles, names[i], isWord));
    assert Names(saved) == names;
    saved
  }

  // ---------------------------------------------------------------- listings and conversations

  /** A named group of files in the file listing. */
  datatype FileGroup<F> = FileGroup(name: string, files: seq<F>)

  /** `get_list_chat_histories`: the system files, then the user's own. */
  function FileGroups<F>(systemFiles: seq<F>, personalFiles: seq<F>): (groups: seq<FileGroup<F>>)
    ensures |groups| == 2
    ensures groups[0].name == "System" && groups[1].name == "Personal"
    ensures forall g :: g in groups ==> g.name in {"System", "Personal"}
    ensures forall g :: g in groups && g.name == "System" ==> g.files == systemFiles
    ensures forall g :: g in groups && g.name == "Personal" ==> g.files == personalFiles
  {
    [FileGroup("System", systemFiles), FileGroup("Personal", personalFiles)]
  }

  datatype Conversation = Conversation(id: string, userId: string, title: string)

  const NewTitle := "New conservation"
  const Greeting := "Hi, I'm your assistant, how can I help you today?"

  /** `new_conversation(userId)`: the conversation and the messages stored with it. The
      identifiers and the timestamp are drawn by the caller. */
  function NewConversation(conversationId: string, userId: string, messageId: string, now: string)
    : (r: (Conversation, seq<Message.Message>))
    ensures r.0.id == conversationId && r.0.userId == userId
    ensures |r.1| == 1
    ensures !r.1[0].fromUser && !r.1[0].isError
    ensures r.1[0].conversationId == conversationId && r.1[0].userId == userId
    ensures r.0.title == NewTitle
    ensures r.1[0].content == Greeting && r.1[0].messageId == messageId && r.1[0].timestamp == now
  {
    (Conversation(conversationId, userId, NewTitle),
     [Message.NewMessage(messageId, conversationId, userId, Greeting, now)])
  }

  /** The greeting is stored as an assistant message and reads back as one. */
  lemma GreetingStoredAsAssistant(conversationId: string, userId: string, messageId: string, now: string)
    ensures var m := NewConversation(conversationId, userId, messageId, now).1[0];
      var row := Message.ToSqlite(m);
      row["from_user"] == Message.SqlInt(0) && row["is_error"] == Message.SqlInt(0)
      && Message.FromSqlite(row) == Success(m)
  {
    Message.RoundTrip(NewConversation(conversationId, userId, messageId, now).1[0]);
  }
}
