/** The metadata server as the stress driver sees it.  The server itself is not part of
    the repository, so only the contract of the two calls the driver makes is modelled:
    a create is refused when the parent is unknown or the name is taken, a removal is
    refused when the directory is unknown or not empty. */
module Mds {

  type ObjID = nat

  const ROOT: ObjID := 0

  datatype Node = Node(parent: ObjID, name: string)

  /** Every directory but the root, which always exists. */
  type Directory = map<ObjID, Node>

  predicate Exists(nodes: Directory, id: ObjID) {
    id == ROOT || id in nodes
  }

  predicate NameFree(nodes: Directory, parent: ObjID, name: string) {
    forall id | id in nodes :: nodes[id] != Node(parent, name)
  }

  predicate Empty(nodes: Directory, id: ObjID) {
    forall c | c in nodes :: nodes[c].parent != id
  }

  predicate Removable(nodes: Directory, id: ObjID) {
    id in nodes && Empty(nodes, id)
  }

  class Server {
    var nodes: Directory
    var nextID: ObjID

    ghost predicate Valid()
      reads this
    {
      && ROOT < nextID
      && ROOT !in nodes
      && forall id | id in nodes :: id < nextID
    }

    constructor ()
      ensures Valid() && nodes == map[]
    {
      nodes, nextID := map[], ROOT + 1;
    }

    method Mkdir(name: string, parent: ObjID) returns (ok: bool, id: ObjID)
      requires Valid()
      modifies this
      ensures Valid()
      ensures ok <==> Exists(old(nodes), parent) && NameFree(old(nodes), parent, name)
      ensures ok ==> !Exists(old(nodes), id) && nodes == old(nodes)[id := Node(parent, name)]
      ensures !ok ==> nodes == old(nodes)
    {
      ok, id := Exists(nodes, parent) && NameFree(nodes, parent, name), nextID;
      if ok {
        nodes, nextID := nodes[id := Node(parent, name)], nextID + 1;
      }
    }

    method Rmdir(id: ObjID) returns (ok: bool)
      requires Valid()
      modifies this
      ensures Valid()
      ensures ok <==> Removable(old(nodes), id)
      ensures nodes == if ok then old(nodes) - {id} else old(nodes)
    {
      ok := Removable(nodes, id);
      if ok {
        nodes := nodes - {id};
      }
    }
  }
}
