/** f->id_table and f->name_table together: the hash tables behind the two maps of the inode cache. */
module FuseTables {

  import opened Options
  import opened InodeTree
  import opened NodeTables

  // The table whose array is to be resized.
  datatype Which = IdTable | NameTable

  // Whether memory can be had when the node goes that leaves a table too empty.
  type Memory = (Ino, Which) -> bool

  class Tables {
    const idTable: NodeTable<Ino, Ino>
    const nameTable: NodeTable<Link, Ino>
    ghost var ids: set<Ino>
    ghost var names: Names
    ghost var pending: nat    // names that are gone but still counted
    ghost var Repr: set<object>

    ghost predicate Valid()
      reads this, Repr
    {
      && {this, idTable, nameTable} <= Repr && {idTable.buckets, nameTable.buckets} <= Repr
      && idTable.Valid() && nameTable.Valid()
      && idTable.pending == 0 && nameTable.pending == pending
      && idTable.contents == (map n | n in ids :: n) && nameTable.contents == names
    }

    /** Both tables are under their load bounds. */
    ghost predicate Loaded()
      reads this, idTable, nameTable
    {
      idTable.Loaded() && nameTable.Loaded()
    }

    /** Adding to the table keeps its load bound even if its array cannot grow. */
    ghost predicate Room(w: Which)
      reads this, idTable, nameTable
    {
      match w
      case IdTable => idTable.use + 1 < idTable.size / 2 || idTable.split + 1 < idTable.size / 2
      case NameTable => nameTable.use + 1 < nameTable.size / 2 || nameTable.split + 1 < nameTable.size / 2
    }

    constructor ()
      ensures Valid() && fresh(Repr) && Loaded() && ids == {} && names == map[] && pending == 0
    {
      var i, n := InitTables();
      idTable, nameTable := i, n;
      ids, names, pending, Repr := {}, map[], 0, {this, i, i.buckets, n, n.buckets};
    }

    /** get_node_nocheck. */
    method HasId(n: Ino) returns (found: bool)
      requires Valid()
      ensures found <==> n in ids
    {
      var r := idTable.Find(n);
      found := r.Some?;
    }

    /** lookup_node. */
    method FindName(l: Link) returns (r: Option<Ino>)
      requires Valid()
      ensures r == if l in names then Some(names[l]) else None
    {
      r := nameTable.Find(l);
    }

    /** hash_id. */
    method AddId(n: Ino, memory: bool)
      requires Valid() && n !in ids
      modifies Repr
      ensures Valid() && fresh(Repr - old(Repr)) && ids == old(ids) + {n} && names == old(names)
      ensures pending == old(pending) && (old(Loaded()) ==> (Loaded() <==> memory || old(Room(IdTable))))
    {
      idTable.Insert(n, n, memory);
      ids := ids + {n};
      Repr := Repr + {idTable.buckets};
    }

    /** The table part of hash_name. */
    method AddName(l: Link, n: Ino, memory: bool)
      requires Valid() && l !in names
      modifies Repr
      ensures Valid() && fresh(Repr - old(Repr)) && names == old(names)[l := n] && ids == old(ids)
      ensures pending == old(pending) && (old(Loaded()) ==> (Loaded() <==> memory || old(Room(NameTable))))
    {
      nameTable.Insert(l, n, memory);
      names := names[l := n];
      Repr := Repr + {nameTable.buckets};
    }

    /** unhash_id. */
    method RemoveId(n: Ino, memory: Memory)
      requires Valid() && n in ids
      modifies Repr
      ensures Valid() && fresh(Repr - old(Repr)) && ids == old(ids) - {n} && names == old(names)
      ensures pending == old(pending) && (old(Loaded()) ==> Loaded())
    {
      idTable.Remove(n, n, memory(n, IdTable));
      ids := ids - {n};
      Repr := Repr + {idTable.buckets};
    }

    /** The two halves of the table part of unhash_name; what hangs on the parent goes in between. */
    method UnlinkName(l: Link, n: Ino)
      requires Valid() && l in names && names[l] == n
      modifies Repr
      ensures Valid() && fresh(Repr - old(Repr)) && names == old(names) - {l} && ids == old(ids)
      ensures pending == old(pending) + 1 && (old(Loaded()) ==> Loaded())
    {
      nameTable.Unlink(l, n);
      names, pending := names - {l}, pending + 1;
      Repr := Repr + {nameTable.buckets};
    }

    method DiscountName(n: Ino, memory: Memory)
      requires Valid() && pending > 0
      modifies Repr
      ensures Valid() && fresh(Repr - old(Repr)) && names == old(names) && ids == old(ids)
      ensures pending == old(pending) - 1 && (old(Loaded()) ==> Loaded())
    {
      nameTable.Discount(memory(n, NameTable));
      pending := pending - 1;
      Repr := Repr + {nameTable.buckets};
    }
  }
}
