/** The namespace table of the server and the mapping from the namespace indices of a nodeset
    to those of the server. */
module Namespaces {

  /** The place of a URI in a table, or the size of the table. */
  function IndexOf(table: seq<string>, uri: string): (r: nat)
    ensures r <= |table|
    ensures r < |table| ==> table[r] == uri
    ensures forall i :: 0 <= i < r ==> table[i] != uri
  {
    if table == [] || table[0] == uri then 0 else 1 + IndexOf(table[1..], uri)
  }

  ghost predicate NoDuplicates(table: seq<string>) {
    forall i, j :: 0 <= i < j < |table| ==> table[i] != table[j]
  }

  function WithUri(table: seq<string>, uri: string): seq<string> {
    if IndexOf(table, uri) < |table| then table else table + [uri]
  }

  class UAServer {
    var namespaces: seq<string>

    constructor (namespaces: seq<string>)
      ensures this.namespaces == namespaces
    {
      this.namespaces := namespaces;
    }

    /** UA_Server_addNamespace: the index of a URI, which joins the table if it is new. */
    method AddNamespace(uri: string) returns (index: nat)
      modifies this
      ensures index == IndexOf(old(namespaces), uri)
      ensures namespaces == WithUri(old(namespaces), uri)
    {
      index := IndexOf(namespaces, uri);
      if index == |namespaces| {
        namespaces := namespaces + [uri];
      }
    }
  }

  /** The size of the buffer that a URI passes through on its way to the server. */
  const NAME_BUFFER := 512

  class AddNodeContext {
    const server: UAServer
    var namespaceUris: seq<string>
    /** From the namespace indices of the nodeset to those of the server. */
    var remote2local: seq<nat>

    /** Takes over the namespaces of the server. Adding what is in the table already does not
        make it longer, so the loop comes to an end. */
    constructor (server: UAServer)
      requires server.namespaces != [] && forall u :: u in server.namespaces ==> |u| < NAME_BUFFER
      modifies server
      ensures this.server == server && server.namespaces == old(server.namespaces)
      ensures namespaceUris == server.namespaces && remote2local == [0]
    {
      this.server := server;
      namespaceUris := [];
      remote2local := [];
      new;
      var index := 0;
      while index < |server.namespaces|
        invariant server.namespaces == old(server.namespaces) && index <= |server.namespaces|
        invariant namespaceUris == server.namespaces[..index]
        invariant remote2local == if index == 0 then [] else [0]
        decreases |old(server.namespaces)| - index
      {
        var uri := server.namespaces[index];
        AddNamespace(uri, index != 0);
        index := index + 1;
      }
    }

    /** Adds a namespace to the server and to the mapping. The namespace of the server's index
        0 is mapped only once. */
    method AddNamespace(uri: string, localOnly: bool)
      requires |uri| < NAME_BUFFER
      modifies this, server
      ensures server.namespaces == WithUri(old(server.namespaces), uri)
      ensures namespaceUris == old(namespaceUris) + [uri]
      ensures var index := IndexOf(old(server.namespaces), uri);
              remote2local == if localOnly || (index == 0 && old(remote2local) != []) then old(remote2local)
                              else old(remote2local) + [index]
    {
      var localIndex := server.AddNamespace(uri);
      namespaceUris := namespaceUris + [uri];
      if localIndex == 0 && |remote2local| > 0 {
        return;
      }
      if !localOnly {
        remote2local := remote2local + [localIndex];
      }
    }

    /** Adds the namespaces that a nodeset declares. */
    method AddNamespaces(uris: seq<string>)
      requires remote2local != [] && server.namespaces != [] && forall u :: u in uris ==> |u| < NAME_BUFFER
      modifies this, server
      ensures server.namespaces == TableAfter(old(server.namespaces), uris)
      ensures remote2local == old(remote2local) + Mapped(old(server.namespaces), uris)
    {
      assert uris[..0] == [];
      ghost var table, mapping := server.namespaces, remote2local;
      for i := 0 to |uris|
        invariant server.namespaces == TableAfter(table, uris[..i])
        invariant remote2local == mapping + Mapped(table, uris[..i])
      {
        OneMoreUri(table, mapping, uris, i);
        assert uris[i] in uris;
        AddNamespace(uris[i], false);
      }
      assert uris[..|uris|] == uris;
    }
  }

  /** The table of the server after some URIs have been declared. */
  function TableAfter(table: seq<string>, uris: seq<string>): seq<string> {
    if uris == [] then table else WithUri(TableAfter(table, uris[..|uris| - 1]), uris[|uris| - 1])
  }

  /** The indices that are appended to the mapping. */
  function Mapped(table: seq<string>, uris: seq<string>): seq<nat> {
    if uris == [] then []
    else
      var index := IndexOf(TableAfter(table, uris[..|uris| - 1]), uris[|uris| - 1]);
      Mapped(table, uris[..|uris| - 1]) + (if index == 0 then [] else [index])
  }

  lemma {:induction false} OneMoreUri(table: seq<string>, mapping: seq<nat>, uris: seq<string>, i: nat)
    requires i < |uris|
    ensures var before, mapped := TableAfter(table, uris[..i]), mapping + Mapped(table, uris[..i]);
            && TableAfter(table, uris[..i + 1]) == WithUri(before, uris[i])
            && mapping + Mapped(table, uris[..i + 1])
               == if IndexOf(before, uris[i]) == 0 then mapped else mapped + [IndexOf(before, uris[i])]
  {
    assert uris[..i + 1][..i] == uris[..i];
  }

  /** The URIs other than `first`, in order. */
  function Others(uris: seq<string>, first: string): (r: seq<string>)
    ensures |r| <= |uris|
  {
    if uris == [] then []
    else Others(uris[..|uris| - 1], first) + (if uris[|uris| - 1] == first then [] else [uris[|uris| - 1]])
  }

  /** The table only grows, at its end and without duplicates. */
  lemma {:induction false} TableGrows(table: seq<string>, uris: seq<string>)
    requires NoDuplicates(table)
    ensures table <= TableAfter(table, uris) && NoDuplicates(TableAfter(table, uris))
    ensures forall u :: u in uris ==> u in TableAfter(table, uris)
    ensures forall u :: u in TableAfter(table, uris) ==> u in table || u in uris
  {
    if uris != [] {
      var init, last := uris[..|uris| - 1], uris[|uris| - 1];
      TableGrows(table, init);
      assert uris == init + [last];
      assert last in TableAfter(table, uris);
    }
  }

  /** Looking up a mapped index in the final table gives the declared URI: the indices appended
      to the mapping are those of the declared URIs, except for the namespace of index 0. */
  lemma {:induction false} MappedIs(table: seq<string>, uris: seq<string>)
    requires NoDuplicates(table) && table != []
    ensures var final, declared := TableAfter(table, uris), Others(uris, table[0]);
            |Mapped(table, uris)| == |declared|
            && forall k :: 0 <= k < |declared| ==> Mapped(table, uris)[k] < |final| && final[Mapped(table, uris)[k]] == declared[k]
  {
    if uris != [] {
      var init, last := uris[..|uris| - 1], uris[|uris| - 1];
      var before, final := TableAfter(table, init), TableAfter(table, uris);
      MappedIs(table, init);
      TableGrows(table, init);
      assert before <= final && before[0] == table[0];
      assert forall k :: 0 <= k < |before| ==> final[k] == before[k];
      assert IndexOf(before, last) == 0 <==> last == table[0];
    }
  }

  /** Index `k` of the nodeset belongs to its `k`-th URI, counted from 1, for all its URIs
      exactly when it does not declare the namespace of index 0. */
  lemma {:induction false} NoShiftIff(table: seq<string>, uris: seq<string>)
    requires NoDuplicates(table) && table != []
    ensures (|Mapped(table, uris)| == |uris|
             && forall k :: 0 <= k < |uris| ==> Mapped(table, uris)[k] < |TableAfter(table, uris)|
                                                && TableAfter(table, uris)[Mapped(table, uris)[k]] == uris[k])
            <==> table[0] !in uris
  {
    MappedIs(table, uris);
    OthersIff(uris, table[0]);
  }

  lemma {:induction false} OthersIff(uris: seq<string>, first: string)
    ensures |Others(uris, first)| == |uris| <==> first !in uris
    ensures first !in uris ==> Others(uris, first) == uris
  {
    if uris != [] {
      var init, last := uris[..|uris| - 1], uris[|uris| - 1];
      OthersIff(init, first);
      assert uris == init + [last];
    }
  }
}
