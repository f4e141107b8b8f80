/** The second copy of the metadata store (chatbot_backend/common/file/file_metadata_manager.py).
    Storage, lookup, deletion and categories are those of `MetadataStore`; this copy differs in
    `update_metadata`, which also replaces the roles, and in its listings, which return names. */
module CommonMetadataStore {
  import opened Wrappers
  import opened MetadataStore

  /** `update_metadata(file_name, original_name, roles)`: replaces the roles and the original
      name, nothing else. */
  function UpdateMetadata(s: Store, name: string, originalName: string, roles: seq<string>): (r: Result<Store, string>)
    requires Valid(s)
    ensures r.Failure? <==> name !in s.entries
    ensures r.Failure? ==> r.error == NotFound(name)
    ensures r.Success? ==> Valid(r.value) && r.value.order == s.order
    ensures r.Success? ==> Get(r.value, name) == Success(s.entries[name].(originalName := originalName, roles := roles))
    ensures r.Success? ==> forall other :: other != name ==> Get(r.value, other) == Get(s, other)
  {
    if name !in s.entries then Failure(NotFound(name))
    else Success(Put(s, name, s.entries[name].(roles := roles, originalName := originalName)))
  }

  /** After an update, the listing by role follows the new roles. */
  lemma UpdatedRolesDecideVisibility(s: Store, name: string, originalName: string, roles: seq<string>,
                                     user: string, role: string)
    requires Valid(s) && name in s.entries
    requires user != s.entries[name].author.GetOr("") && role != "admin"
    ensures var t := UpdateMetadata(s, name, originalName, roles).value;
      name in FileNamesByUserAndRole(t, user, role) <==> role in roles
  {
    var t := UpdateMetadata(s, name, originalName, roles).value;
    assert t.entries[name] == s.entries[name].(originalName := originalName, roles := roles);
  }

  /** An upload by "admin". */
  predicate ByAdmin(e: Entry) { e.username == "admin" }

  /** `get_list_system_files()` as written: the loop collects the admin uploads, but the
      function returns every key of the dict. */
  function SystemFileNamesAsWritten(s: Store): (r: seq<string>)
    requires Valid(s)
    ensures forall name :: name in r <==> name in s.entries
  {
    var collected := NamesWhere(s.order, s.entries, ByAdmin);
    s.order
  }

  /** `get_list_system_files()` as its comment describes it: the file names uploaded by
      "admin", in order. */
  function SystemFileNames(s: Store): (r: seq<string>)
    requires Valid(s)
    ensures forall name :: name in r <==> name in s.entries && s.entries[name].username == "admin"
    ensures NoDuplicates(r)
    ensures InOrder(r, s.order)
  {
    NamesWhereInOrder(s.order, s.entries, ByAdmin);
    NamesWhere(s.order, s.entries, ByAdmin)
  }

  /** A store holding one file uploaded by an ordinary user. */
  function UserUploadOnly(): (s: Store)
    ensures Valid(s)
  {
    Store(["report.pdf"], map["report.pdf" := Entry("report.pdf", "pdf", "2024-01-01", "alice", ["user"], map[], None)])
  }

  /** The returned list names a user's upload as a system file; the intended list does not. */
  lemma SystemFilesIncludeUserUploads()
    ensures "report.pdf" in SystemFileNamesAsWritten(UserUploadOnly())
    ensures "report.pdf" !in SystemFileNames(UserUploadOnly())
  {
    var s := UserUploadOnly();
    assert s.entries["report.pdf"].username == "alice";
  }

  /** `get_list_personal_files(user)`: the names a non-admin user uploaded, in order. */
  function PersonalFileNames(s: Store, user: string): (r: seq<string>)
    requires Valid(s)
    ensures user == "admin" ==> r == []
    ensures user != "admin" ==> forall name :: name in r <==> name in s.entries && s.entries[name].username == user
    ensures NoDuplicates(r)
    ensures InOrder(r, s.order)
  {
    if user == "admin" then []
    else
      NamesWhereInOrder(s.order, s.entries, (e: Entry) => e.username == user);
      NamesWhere(s.order, s.entries, (e: Entry) => e.username == user)
  }

  /** With the intended system list, every file is either a system file or a personal file of
      its uploader, never both. */
  lemma SystemOrPersonal(s: Store, name: string)
    requires Valid(s) && name in s.entries
    ensures var owner := s.entries[name].username;
      name in SystemFileNames(s) <==> name !in PersonalFileNames(s, owner)
  {
  }
}
