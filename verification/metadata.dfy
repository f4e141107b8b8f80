/** The file-metadata store of the backend (chatbot_backend/app/file/file_metadata_manager.py):
    one entry per stored file name, with per-user categories and role-based listings. The
    `metadata.json` load and save are left out; a store is the dict they carry, with Python's
    insertion order. */
module MetadataStore {
  import opened Wrappers

  /** One entry. `author` is read by the user/role listing but never written by `add_metadata`. */
  datatype Entry = Entry(
    originalName: string,
    extension: string,
    timestamp: string,
    username: string,
    roles: seq<string>,
    category: map<string, string>,
    author: Option<string>)

  /** The metadata dict: its keys in insertion order and the entry of each. */
  datatype Store = Store(order: seq<string>, entries: map<string, Entry>)

  predicate NoDuplicates(names: seq<string>) {
    forall i, j :: 0 <= i < j < |names| ==> names[i] != names[j]
  }

  /** The key order lists exactly the keys of the dict, each once. */
  predicate Valid(s: Store) {
    NoDuplicates(s.order) && (forall name :: name in s.entries ==> name in s.order) && (forall name :: name in s.order ==> name in s.entries)
  }

  /** The `KeyError` message. */
  function NotFound(name: string): string {
    "No metadata found for file: " + name
  }

  /** `get_metadata`. */
  function Get(s: Store, name: string): (r: Result<Entry, string>)
    ensures r.Success? <==> name in s.entries
    ensures r.Success? ==> r.value == s.entries[name]
    ensures r.Failure? ==> r.error == NotFound(name)
  {
    if name in s.entries then Success(s.entries[name]) else Failure(NotFound(name))
  }

  /** `metadatas[name] = entry`: an existing key keeps its place, a new one goes last. */
  function Put(s: Store, name: string, e: Entry): (r: Store)
    requires Valid(s)
    ensures Valid(r)
    ensures Get(r, name) == Success(e)
    ensures forall other :: other != name ==> Get(r, other) == Get(s, other)
    ensures name in s.entries ==> r.order == s.order
    ensures name !in s.entries ==> r.order == s.order + [name]
  {
    if name in s.entries then Store(s.order, s.entries[name := e])
    else Store(s.order + [name], s.entries[name := e])
  }

  /** Without duplicates, the first name does not occur again. */
  lemma HeadNotInTail(names: seq<string>)
    requires names != [] && NoDuplicates(names)
    ensures names[0] !in names[1..]
  {
    assert forall j :: 0 <= j < |names[1..]| ==> names[1..][j] == names[j + 1] != names[0];
  }

  /** The order with one key taken out. */
  function Remove(names: seq<string>, name: string): (r: seq<string>)
    ensures forall k :: k in r <==> k in names && k != name
    ensures NoDuplicates(names) ==> NoDuplicates(r)
    ensures name !in names ==> r == names
  {
    if names == [] then []
    else
      var rest := Remove(names[1..], name);
      assert forall k :: k in names <==> k == names[0] || k in names[1..];
      if names[0] == name then rest
      else
        var r := [names[0]] + rest;
        assert forall i :: 1 <= i < |r| ==> r[i] == rest[i - 1];
        assert NoDuplicates(names) ==> names[0] !in names[1..] by {
          if NoDuplicates(names) { HeadNotInTail(names); }
        }
        r
  }

  /** The tail of a list without repetitions has none either. */
  lemma TailNoDuplicates(names: seq<string>)
    requires names != [] && NoDuplicates(names)
    ensures NoDuplicates(names[1..])
  {
    var tail := names[1..];
    assert forall a, b :: 0 <= a < b < |tail| ==> tail[a] == names[a + 1] && tail[b] == names[b + 1];
  }

  /** Removing a name other than the head keeps the head in front. */
  lemma RemoveKeepsHead(names: seq<string>, name: string)
    requires names != [] && names[0] != name
    ensures Remove(names, name) == [names[0]] + Remove(names[1..], name)
  {
  }

  /** Cutting out index `i > 0` cuts out index `i - 1` of the tail. */
  lemma CutInTail(names: seq<string>, i: nat)
    requires 0 < i < |names|
    ensures names[..i] + names[i + 1..] == [names[0]] + (names[1..][..i - 1] + names[1..][i..])
  {
    assert names[..i] == [names[0]] + names[1..][..i - 1];
    assert names[i + 1..] == names[1..][i..];
  }

  /** Removing a name that occurs once, at index `i`, closes the gap there: the other names keep
      their order. */
  lemma {:induction false} RemoveAt(names: seq<string>, i: nat)
    requires NoDuplicates(names) && i < |names|
    ensures Remove(names, names[i]) == names[..i] + names[i + 1..]
    decreases i
  {
    if i == 0 {
      HeadNotInTail(names);
      assert names[..0] + names[1..] == names[1..];
    } else {
      var tail := names[1..];
      TailNoDuplicates(names);
      assert tail[i - 1] == names[i] != names[0];
      RemoveAt(tail, i - 1);
      RemoveKeepsHead(names, names[i]);
      CutInTail(names, i);
    }
  }

  /** `add_metadata`: inserts or overwrites one entry, with no categories yet. */
  function Add(s: Store, name: string, originalName: string, extension: string, timestamp: string,
               username: string, roles: seq<string>): (r: Store)
    requires Valid(s)
    ensures Valid(r)
    ensures Get(r, name) == Success(Entry(originalName, extension, timestamp, username, roles, map[], None))
    ensures forall other :: other != name ==> Get(r, other) == Get(s, other)
  {
    Put(s, name, Entry(originalName, extension, timestamp, username, roles, map[], None))
  }

  /** `delete_metadata`: `KeyError` for an unknown name, otherwise that key alone goes. */
  function Delete(s: Store, name: string): (r: Result<Store, string>)
    requires Valid(s)
    ensures r.Failure? <==> name !in s.entries
    ensures r.Failure? ==> r.error == NotFound(name)
    ensures r.Success? ==> Valid(r.value) && Get(r.value, name).Failure?
    ensures r.Success? ==> forall other :: other != name ==> Get(r.value, other) == Get(s, other)
    ensures r.Success? ==> exists i :: 0 <= i < |s.order| && s.order[i] == name
                                      && r.value.order == s.order[..i] + s.order[i + 1..]
  {
    if name !in s.entries then Failure(NotFound(name))
    else
      DeletePosition(s.order, name);
      Success(Store(Remove(s.order, name), map k | k in s.entries && k != name :: s.entries[k]))
  }

  lemma DeletePosition(names: seq<string>, name: string)
    requires NoDuplicates(names) && name in names
    ensures exists i :: 0 <= i < |names| && names[i] == name && Remove(names, name) == names[..i] + names[i + 1..]
  {
    var i :| 0 <= i < |names| && names[i] == name;
    RemoveAt(names, i);
  }

  /** Adding a new name and deleting it again gives the store back. */
  lemma DeleteUndoesAdd(s: Store, name: string, originalName: string, extension: string, timestamp: string,
                        username: string, roles: seq<string>)
    requires Valid(s) && name !in s.entries
    ensures Delete(Add(s, name, originalName, extension, timestamp, username, roles), name) == Success(s)
  {
    var added := Add(s, name, originalName, extension, timestamp, username, roles);
    assert added.order == s.order + [name];
    RemoveLast(s.order, name);
    var back := Delete(added, name).value;
    assert back.entries == s.entries;
  }

  lemma {:induction false} RemoveLast(names: seq<string>, name: string)
    requires name !in names
    ensures Remove(names + [name], name) == names
    decreases |names|
  {
    if names == [] {
      assert [] + [name] == [name];
      assert [name][1..] == [];
    } else {
      assert (names + [name])[1..] == names[1..] + [name];
      RemoveLast(names[1..], name);
      assert [names[0]] + names[1..] == names;
    }
  }

  /** `update_metadata` of this variant: only `original_name` changes. */
  function UpdateMetadata(s: Store, name: string, originalName: string): (r: Result<Store, string>)
    requires Valid(s)
    ensures r.Failure? <==> name !in s.entries
    ensures r.Failure? ==> r.error == NotFound(name)
    ensures r.Success? ==> Valid(r.value) && r.value.order == s.order
    ensures r.Success? ==> Get(r.value, name) == Success(s.entries[name].(originalName := originalName))
    ensures r.Success? ==> forall other :: other != name ==> Get(r.value, other) == Get(s, other)
  {
    if name !in s.entries then Failure(NotFound(name))
    else Success(Put(s, name, s.entries[name].(originalName := originalName)))
  }

  /** `get_category_per_user`: the user's category, `None` when never set. */
  function GetCategory(s: Store, name: string, user: string): (r: Result<Option<string>, string>)
    ensures r.Failure? <==> name !in s.entries
    ensures r.Failure? ==> r.error == NotFound(name)
    ensures r.Success? ==> (r.value.Some? <==> user in s.entries[name].category)
    ensures r.Success? && r.value.Some? ==> r.value.value == s.entries[name].category[user]
  {
    if name !in s.entries then Failure(NotFound(name))
    else
      var c := s.entries[name].category;
      Success(if user in c then Some(c[user]) else None)
  }

  /** `update_category_per_user`: sets this user's category of this file. */
  function UpdateCategory(s: Store, name: string, user: string, category: string): (r: Result<Store, string>)
    requires Valid(s)
    ensures r.Failure? <==> name !in s.entries
    ensures r.Failure? ==> r.error == NotFound(name)
    ensures r.Success? ==> Valid(r.value) && r.value.order == s.order
    ensures r.Success? ==> forall other :: other != name ==> Get(r.value, other) == Get(s, other)
  {
    if name !in s.entries then Failure(NotFound(name))
    else
      var e := s.entries[name];
      Success(Put(s, name, e.(category := e.category[user := category])))
  }

  /** A category set for one user is read back for that user; other users' categories and every
      other field stay as they were. */
  lemma CategoryRoundTrip(s: Store, name: string, user: string, category: string, other: string)
    requires Valid(s) && name in s.entries
    ensures var t := UpdateCategory(s, name, user, category).value;
      && GetCategory(t, name, user) == Success(Some(category))
      && (other != user ==> GetCategory(t, name, other) == GetCategory(s, name, other))
      && t.entries[name] == s.entries[name].(category := t.entries[name].category)
  {
  }

  // ---------------------------------------------------------------- listings

  /** The names, in order, whose entry satisfies `keep`. */
  function NamesWhere(names: seq<string>, entries: map<string, Entry>, keep: Entry -> bool): (r: seq<string>)
    requires forall k :: k in names ==> k in entries
    ensures forall k :: k in r <==> k in names && keep(entries[k])
    ensures |r| <= |names|
    ensures NoDuplicates(names) ==> NoDuplicates(r)
  {
    if names == [] then []
    else
      var rest := NamesWhere(names[1..], entries, keep);
      assert forall k :: k in names <==> k == names[0] || k in names[1..];
      if keep(entries[names[0]]) then
        var r := [names[0]] + rest;
        assert forall i :: 1 <= i < |r| ==> r[i] == rest[i - 1];
        r
      else rest
  }

  /** One step of the filter: the head, if kept, in front of the filtered tail. */
  lemma NamesWhereStep(names: seq<string>, h: string, t: seq<string>, entries: map<string, Entry>,
                       keep: Entry -> bool)
    requires names == [h] + t && h in entries && forall k :: k in t ==> k in entries
    ensures NamesWhere(names, entries, keep)
         == (if keep(entries[h]) then [h] else []) + NamesWhere(t, entries, keep)
  {
    assert names[0] == h && names[1..] == t;
    assert forall k :: k in names ==> k in entries;
  }

  /** The index of the first occurrence of `name`. */
  function Position(names: seq<string>, name: string): (p: nat)
    requires name in names
    ensures p < |names| && names[p] == name
    ensures forall j :: 0 <= j < p ==> names[j] != name
  {
    if names[0] == name then 0 else 1 + Position(names[1..], name)
  }

  /** `r` lists names of `names` in the order they have there. */
  predicate InOrder(r: seq<string>, names: seq<string>) {
    && (forall x :: x in r ==> x in names)
    && forall i, j :: 0 <= i < j < |r| && r[i] in names && r[j] in names ==> Position(names, r[i]) < Position(names, r[j])
  }

  /** Names in the order of the tail are in the order of the whole list, after its head. */
  lemma InOrderTail(names: seq<string>, rest: seq<string>)
    requires names != [] && names[0] !in names[1..] && InOrder(rest, names[1..])
    ensures InOrder(rest, names)
    ensures forall x :: x in rest ==> x in names && Position(names, x) > 0
  {
    var t := names[1..];
    forall x | x in rest
      ensures x in names && Position(names, x) == 1 + Position(t, x)
    {
      assert x in t && x != names[0];
    }
  }

  /** The head of the list in front of names that come after it keeps the order. */
  lemma InOrderHead(names: seq<string>, rest: seq<string>)
    requires names != [] && InOrder(rest, names)
    requires forall x :: x in rest ==> x in names && Position(names, x) > 0
    ensures InOrder([names[0]] + rest, names)
  {
    var r := [names[0]] + rest;
    assert Position(names, names[0]) == 0;
    forall i, j | 0 <= i < j < |r|
      ensures Position(names, r[i]) < Position(names, r[j])
    {
      assert r[j] == rest[j - 1];
      if i > 0 {
        assert r[i] == rest[i - 1];
      }
    }
  }

  /** The filter keeps the order of the names it is given. */
  lemma {:induction false} NamesWhereInOrder(names: seq<string>, entries: map<string, Entry>, keep: Entry -> bool)
    requires NoDuplicates(names) && forall k :: k in names ==> k in entries
    ensures InOrder(NamesWhere(names, entries, keep), names)
    decreases |names|
  {
    if names != [] {
      var h, t := names[0], names[1..];
      assert NoDuplicates(t) by {
        assert forall a, b :: 0 <= a < b < |t| ==> t[a] == names[a + 1] && t[b] == names[b + 1];
      }
      assert forall k :: k in t ==> k in names;
      HeadNotInTail(names);
      NamesWhereInOrder(t, entries, keep);
      var rest := NamesWhere(t, entries, keep);
      InOrderTail(names, rest);
      NamesWhereStep(names, h, t, entries, keep);
      if keep(entries[h]) {
        InOrderHead(names, rest);
      }
    }
  }

  /** The user/role rule: the file's author, an admin, or a role the file is shared with. */
  predicate Visible(e: Entry, user: string, role: string) {
    user == e.author.GetOr("") || role == "admin" || role in e.roles
  }

  /** `get_list_file_names_by_user_and_role`. */
  function FileNamesByUserAndRole(s: Store, user: string, role: string): (r: seq<string>)
    requires Valid(s)
    ensures forall name :: name in r <==> name in s.entries && Visible(s.entries[name], user, role)
    ensures NoDuplicates(r)
    ensures InOrder(r, s.order)
  {
    NamesWhereInOrder(s.order, s.entries, e => Visible(e, user, role));
    NamesWhere(s.order, s.entries, e => Visible(e, user, role))
  }

  /** An admin sees every file, in order. */
  lemma {:induction false} AdminSeesAll(names: seq<string>, entries: map<string, Entry>, user: string)
    requires forall k :: k in names ==> k in entries
    ensures NamesWhere(names, entries, e => Visible(e, user, "admin")) == names
    decreases |names|
  {
    if names != [] {
      AdminSeesAll(names[1..], entries, user);
    }
  }

  /** Files added through `add_metadata` carry no author, so for a non-empty user name only the
      role decides. */
  lemma AddedFileVisibility(s: Store, name: string, originalName: string, extension: string, timestamp: string,
                            username: string, roles: seq<string>, user: string, role: string)
    requires Valid(s) && user != ""
    ensures var t := Add(s, name, originalName, extension, timestamp, username, roles);
      name in FileNamesByUserAndRole(t, user, role) <==> role == "admin" || role in roles
  {
    var t := Add(s, name, originalName, extension, timestamp, username, roles);
    assert t.entries[name].author == None;
  }

  /** One row of the system or personal listing (`FileSystem`). */
  datatype FileInfo = FileInfo(name: string, originalName: string, extension: string, username: string, timestamp: string)

  function InfoOf(s: Store, name: string): FileInfo
    requires name in s.entries
  {
    var e := s.entries[name];
    FileInfo(name, e.originalName, e.extension, e.username, e.timestamp)
  }

  function Infos(s: Store, names: seq<string>): (r: seq<FileInfo>)
    requires forall k :: k in names ==> k in s.entries
    ensures |r| == |names| && forall i :: 0 <= i < |names| ==> r[i] == InfoOf(s, names[i])
  {
    seq(|names|, i requires 0 <= i < |names| => InfoOf(s, names[i]))
  }

  /** The file names of a listing, in its order. */
  function InfoNames(r: seq<FileInfo>): (names: seq<string>)
    ensures |names| == |r| && forall i :: 0 <= i < |r| ==> names[i] == r[i].name
  {
    seq(|r|, i requires 0 <= i < |r| => r[i].name)
  }

  /** An admin upload that this role may see. */
  predicate IsSystemFile(e: Entry, role: string) {
    e.username == "admin" && (role == "admin" || role in e.roles)
  }

  /** `get_list_system_files(role)`. */
  function SystemFiles(s: Store, role: string): (r: seq<FileInfo>)
    requires Valid(s)
    ensures forall f :: f in r <==> f.name in s.entries && IsSystemFile(s.entries[f.name], role) && f == InfoOf(s, f.name)
    ensures InOrder(InfoNames(r), s.order)
  {
    var names := NamesWhere(s.order, s.entries, e => IsSystemFile(e, role));
    NamesWhereInOrder(s.order, s.entries, e => IsSystemFile(e, role));
    var r := Infos(s, names);
    assert InfoNames(r) == names;
    assert forall f :: f in r <==> exists i :: 0 <= i < |names| && f == InfoOf(s, names[i]);
    r
  }

  /** `get_list_personal_files(user)`: nothing for "admin", whose uploads are system files. */
  function PersonalFiles(s: Store, user: string): (r: seq<FileInfo>)
    requires Valid(s)
    ensures user == "admin" ==> r == []
    ensures user != "admin" ==>
              forall f :: f in r <==> f.name in s.entries && s.entries[f.name].username == user && f == InfoOf(s, f.name)
    ensures InOrder(InfoNames(r), s.order)
  {
    if user == "admin" then []
    else
      var names := NamesWhere(s.order, s.entries, (e: Entry) => e.username == user);
      NamesWhereInOrder(s.order, s.entries, (e: Entry) => e.username == user);
      var r := Infos(s, names);
      assert InfoNames(r) == names;
      assert forall f :: f in r <==> exists i :: 0 <= i < |names| && f == InfoOf(s, names[i]);
      r
  }

  /** No file is both a system file and somebody's personal file. */
  lemma SystemAndPersonalDisjoint(s: Store, role: string, user: string, f: FileInfo)
    requires Valid(s)
    ensures !(f in SystemFiles(s, role) && f in PersonalFiles(s, user))
  {
  }
}
