/** The name-to-id lookups `WorkSpaceGetter` builds from the responses of the remote service:
    the team id, the ids of the configured spaces, the flat folder map and the nested
    folder-to-list map. Each response is given as the plain sequence of its `{name, id}`
    records, in the order the service lists them. */
module Hierarchy {

  /** One `{name, id}` record of a response: a team, a space, a folder or a list. */
  datatype Named = Named(name: string, id: string)

  /** A lookup that either finds its id or, where the source indexes an empty list and raises
      `IndexError`, finds nothing. */
  datatype Lookup = Found(id: string) | NoMatch

  /** One folder with the lists the service returned for it. */
  datatype FolderLists = FolderLists(folder: string, lists: seq<Named>)

  // ---------------------------------------------------------------------------
  // The team (description_updater.py:78-79): the id of the first team with the configured name
  // ---------------------------------------------------------------------------

  /** The teams called `name`, in response order. */
  function Matching(teams: seq<Named>, name: string): seq<Named>
  {
    if teams == [] then []
    else (if teams[0].name == name then [teams[0]] else []) + Matching(teams[1..], name)
  }

  /** The id of the first team called `name`; `NoMatch` when there is none. */
  function SelectTeam(teams: seq<Named>, name: string): (r: Lookup)
  {
    var m := Matching(teams, name);
    if m == [] then NoMatch else Found(m[0].id)
  }

  /** The team id found is that of the first team with the configured name, and it is found
      exactly when some team has that name. */
  lemma SelectTeamFirst(teams: seq<Named>, name: string, id: string)
    ensures SelectTeam(teams, name) == Found(id)
            <==> exists i :: 0 <= i < |teams| && teams[i] == Named(name, id)
                             && forall j :: 0 <= j < i ==> teams[j].name != name
    ensures SelectTeam(teams, name) == NoMatch
            <==> forall i :: 0 <= i < |teams| ==> teams[i].name != name
  {
    MatchingEmpty(teams, name);
    if Matching(teams, name) != [] {
      var f := MatchingFirst(teams, name);
      forall i | 0 <= i < |teams| && teams[i].name == name && (forall j :: 0 <= j < i ==> teams[j].name != name)
        ensures i == f
      {
      }
    }
  }

  /** No team is selected exactly when no team has the name. */
  lemma {:induction false} MatchingEmpty(teams: seq<Named>, name: string)
    ensures Matching(teams, name) == [] <==> forall i :: 0 <= i < |teams| ==> teams[i].name != name
  {
    if teams != [] {
      MatchingEmpty(teams[1..], name);
      assert forall i :: 0 < i < |teams| ==> teams[i] == teams[1..][i - 1];
    }
  }

  /** The first team selected is the first team with the name. */
  lemma {:induction false} MatchingFirst(teams: seq<Named>, name: string) returns (f: nat)
    requires Matching(teams, name) != []
    ensures f < |teams| && teams[f].name == name && Matching(teams, name)[0] == teams[f]
    ensures forall j :: 0 <= j < f ==> teams[j].name != name
  {
    if teams[0].name == name {
      f := 0;
    } else {
      var g := MatchingFirst(teams[1..], name);
      f := g + 1;
      assert forall j :: 0 < j < f ==> teams[j] == teams[1..][j - 1];
    }
  }

  // ---------------------------------------------------------------------------
  // The spaces (description_updater.py:81-84): the ids of the spaces with a configured name
  // ---------------------------------------------------------------------------

  /** The ids of the spaces whose name is configured, in response order. */
  function SpaceIds(spaces: seq<Named>, names: seq<string>): (ids: seq<string>)
    ensures |ids| <= |spaces|
  {
    if spaces == [] then []
    else (if spaces[0].name in names then [spaces[0].id] else []) + SpaceIds(spaces[1..], names)
  }

  /** An id is selected exactly when some space with a configured name carries it. */
  lemma {:induction false} SpaceIdsMember(spaces: seq<Named>, names: seq<string>, id: string)
    ensures id in SpaceIds(spaces, names)
            <==> exists i :: 0 <= i < |spaces| && spaces[i].id == id && spaces[i].name in names
  {
    if spaces != [] {
      SpaceIdsMember(spaces[1..], names, id);
      assert forall i :: 0 <= i < |spaces| - 1 ==> spaces[1..][i] == spaces[i + 1];
      if i :| 0 <= i < |spaces| && spaces[i].id == id && spaces[i].name in names {
        if i > 0 {
          assert spaces[1..][i - 1] == spaces[i];
        }
      }
    }
  }

  /** The filter keeps the response order: the spaces of two responses are selected as the
      selections of each, one after the other. */
  lemma {:induction false} SpaceIdsAppend(a: seq<Named>, b: seq<Named>, names: seq<string>)
    ensures SpaceIds(a + b, names) == SpaceIds(a, names) + SpaceIds(b, names)
  {
    if a != [] {
      assert (a + b)[0] == a[0];
      assert (a + b)[1..] == a[1..] + b;
      SpaceIdsAppend(a[1..], b, names);
    } else {
      assert a + b == b;
    }
  }

  // ---------------------------------------------------------------------------
  // The folders (description_updater.py:99-104): one name-to-id map over the folders of
  // every selected space
  // ---------------------------------------------------------------------------

  /** The records of all responses, one response after another. */
  function Flatten(responses: seq<seq<Named>>): (xs: seq<Named>)
  {
    if responses == [] then []
    else Flatten(responses[..|responses| - 1]) + responses[|responses| - 1]
  }

  /** The map built by storing each record's id under its name, in order: a later record
      with the same name overwrites the id of an earlier one. */
  function NameMap(xs: seq<Named>): map<string, string>
  {
    if xs == [] then map[]
    else NameMap(xs[..|xs| - 1])[xs[|xs| - 1].name := xs[|xs| - 1].id]
  }

  /** The folder map of `get_folder_ids` over the folder responses of the selected spaces. */
  function FolderIds(responses: seq<seq<Named>>): map<string, string>
  {
    NameMap(Flatten(responses))
  }

  /** Every record of every response, and nothing else, is in the flattened sequence. */
  lemma {:induction false} FlattenMember(responses: seq<seq<Named>>, x: Named)
    ensures x in Flatten(responses) <==> exists k :: 0 <= k < |responses| && x in responses[k]
  {
    if responses != [] {
      var n := |responses| - 1;
      var init := responses[..n];
      FlattenMember(init, x);
      assert Flatten(responses) == Flatten(init) + responses[n];
      assert forall k :: 0 <= k < n ==> init[k] == responses[k];
      if k :| 0 <= k < n && x in responses[k] {
        assert x in init[k];
      }
    }
  }

  /** The names in the map are exactly the names of the records. */
  lemma {:induction false} NameMapKeys(xs: seq<Named>, name: string)
    ensures name in NameMap(xs) <==> exists i :: 0 <= i < |xs| && xs[i].name == name
  {
    if xs != [] {
      var n := |xs| - 1;
      NameMapKeys(xs[..n], name);
      assert forall i :: 0 <= i < n ==> xs[..n][i] == xs[i];
    }
  }

  /** The last record with a name decides its id. */
  lemma {:induction false} NameMapLastWins(xs: seq<Named>, i: nat)
    requires i < |xs|
    requires forall j :: i < j < |xs| ==> xs[j].name != xs[i].name
    ensures xs[i].name in NameMap(xs) && NameMap(xs)[xs[i].name] == xs[i].id
  {
    var n := |xs| - 1;
    if i < n {
      assert xs[..n][i] == xs[i];
      assert forall j :: i < j < n ==> xs[..n][j] == xs[j];
      NameMapLastWins(xs[..n], i);
    }
  }

  /** A folder is in the folder map exactly when some response lists it. */
  lemma FolderIdsKeys(responses: seq<seq<Named>>, name: string)
    ensures name in FolderIds(responses)
            <==> exists k, x :: 0 <= k < |responses| && x in responses[k] && x.name == name
  {
    var xs := Flatten(responses);
    NameMapKeys(xs, name);
    if i :| 0 <= i < |xs| && xs[i].name == name {
      FlattenMember(responses, xs[i]);
    }
    if k, x :| 0 <= k < |responses| && x in responses[k] && x.name == name {
      FlattenMember(responses, x);
    }
  }

  // ---------------------------------------------------------------------------
  // The lists (description_updater.py:171-179): `list_getter`
  // ---------------------------------------------------------------------------

  /** The nested map `list_getter` returns: every folder mapped to the name map of its lists;
      a later folder with the same name replaces an earlier one. */
  function ListMap(folders: seq<FolderLists>): map<string, map<string, string>>
  {
    if folders == [] then map[]
    else
      var f := folders[|folders| - 1];
      ListMap(folders[..|folders| - 1])[f.folder := NameMap(f.lists)]
  }

  /** `list_getter` as the source writes it: one fresh dictionary per folder, updated list by
      list, then stored under the folder's name. */
  method ListIds(folders: seq<FolderLists>) returns (folderDict: map<string, map<string, string>>)
    ensures folderDict == ListMap(folders)
  {
    folderDict := map[];
    for k := 0 to |folders|
      invariant folderDict == ListMap(folders[..k])
    {
      assert folders[..k + 1][..k] == folders[..k];
      var lists := folders[k].lists;
      var listDictionary := map[];
      for j := 0 to |lists|
        invariant listDictionary == NameMap(lists[..j])
      {
        assert lists[..j + 1][..j] == lists[..j];
        listDictionary := listDictionary[lists[j].name := lists[j].id];
      }
      assert lists[..|lists|] == lists;
      folderDict := folderDict[folders[k].folder := listDictionary];
    }
    assert folders[..|folders|] == folders;
  }

  /** The folders in the nested map are exactly the folders of the input. */
  lemma {:induction false} ListMapKeys(folders: seq<FolderLists>, name: string)
    ensures name in ListMap(folders) <==> exists k :: 0 <= k < |folders| && folders[k].folder == name
  {
    if folders != [] {
      var n := |folders| - 1;
      ListMapKeys(folders[..n], name);
      assert forall k :: 0 <= k < n ==> folders[..n][k] == folders[k];
    }
  }

  /** The last folder with a name decides its lists, and every list of it is found there
      under its own name, with the id of the last list of that name. */
  lemma {:induction false} ListMapLastWins(folders: seq<FolderLists>, k: nat)
    requires k < |folders|
    requires forall j :: k < j < |folders| ==> folders[j].folder != folders[k].folder
    ensures folders[k].folder in ListMap(folders)
    ensures ListMap(folders)[folders[k].folder] == NameMap(folders[k].lists)
  {
    var n := |folders| - 1;
    if k < n {
      assert folders[..n][k] == folders[k];
      assert forall j :: k < j < n ==> folders[..n][j] == folders[j];
      ListMapLastWins(folders[..n], k);
    }
  }
}
