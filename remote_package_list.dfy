/**
 * RemotePackageList: descriptors keyed by their identity.  Adding a
 * descriptor whose identity is already present replaces the earlier one.
 */
module PackageList {
  import opened DescriptorView

  type Catalog = map<string, RemotePackageDescriptor>

  /** Adding a descriptor under a fresh identity grows the catalog by one; re-adding keeps its size. */
  lemma {:induction false} UpsertSize(m: Catalog, d: RemotePackageDescriptor)
    ensures |m[GetIdentity(d) := d]| == if GetIdentity(d) in m then |m| else |m| + 1
  {
    var k := GetIdentity(d);
    var m' := m[k := d];
    if k in m {
      assert m'.Keys == m.Keys;
    } else {
      assert m'.Keys == m.Keys + {k};
    }
  }

  /** Removing a key shrinks the catalog by one exactly when the key was present. */
  lemma {:induction false} RemoveSize(m: Catalog, ident: string)
    ensures |m - {ident}| == if ident in m then |m| - 1 else |m|
  {
    var m' := m - {ident};
    if ident in m {
      assert m'.Keys + {ident} == m.Keys;
    } else {
      assert m'.Keys == m.Keys;
    }
  }

  class RemotePackageList {
    var remotePackageDescriptorList: Catalog

    constructor ()
      ensures remotePackageDescriptorList == map[]
    {
      remotePackageDescriptorList := map[];
    }

    /** The number of distinct identities stored. */
    function Size(): (n: nat)
      reads this
      ensures n == |remotePackageDescriptorList.Keys|
      ensures n == 0 <==> remotePackageDescriptorList == map[]
    {
      |remotePackageDescriptorList|
    }

    /** Stores the descriptor under its identity, replacing an entry with the same identity. */
    method Add(remotePackageDescriptor: RemotePackageDescriptor)
      modifies this
      ensures remotePackageDescriptorList
        == old(remotePackageDescriptorList)[GetIdentity(remotePackageDescriptor) := remotePackageDescriptor]
      ensures Size() == old(Size()) + (if GetIdentity(remotePackageDescriptor) in old(remotePackageDescriptorList) then 0 else 1)
    {
      UpsertSize(remotePackageDescriptorList, remotePackageDescriptor);
      remotePackageDescriptorList := remotePackageDescriptorList[GetIdentity(remotePackageDescriptor) := remotePackageDescriptor];
    }

    /** Deletes that key only; absent keys leave the list as it was. */
    method RemoveByIdent(ident: string)
      modifies this
      ensures remotePackageDescriptorList == old(remotePackageDescriptorList) - {ident}
      ensures ident !in old(remotePackageDescriptorList) ==> remotePackageDescriptorList == old(remotePackageDescriptorList)
      ensures Size() == old(Size()) - (if ident in old(remotePackageDescriptorList) then 1 else 0)
    {
      RemoveSize(remotePackageDescriptorList, ident);
      remotePackageDescriptorList := remotePackageDescriptorList - {ident};
    }

    /** Same as removing the package's identity. */
    method RemoveByPackage(package: RemotePackageDescriptor)
      modifies this
      ensures remotePackageDescriptorList == old(remotePackageDescriptorList) - {GetIdentity(package)}
    {
      RemoveByIdent(GetIdentity(package));
    }

    method Clear()
      modifies this
      ensures remotePackageDescriptorList == map[]
      ensures Size() == 0
    {
      remotePackageDescriptorList := map[];
    }
  }
}
