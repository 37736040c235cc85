/**
 * Object kinds of the pack format and the decoded pack record
 * (cmd/clone/objects.go). A kind is the Go `GitObjectType`, a byte; only
 * seven values have a meaning, and there is no kind 5.
 */
module CloneObjects {
  import opened GoLib

  type GitObjectType = byte

  const Invalid: GitObjectType := 0
  const Commit: GitObjectType := 1
  const Tree: GitObjectType := 2
  const Blob: GitObjectType := 3
  const Tag: GitObjectType := 4
  const OfsDelta: GitObjectType := 6
  const RefDelta: GitObjectType := 7

  /** The six kinds `String` has a name for. */
  predicate IsNamed(o: GitObjectType) {
    o == Commit || o == Tree || o == Blob || o == Tag || o == OfsDelta || o == RefDelta
  }

  /** `GitObjectType.String`: the kind's name, or "invalid(<n>))" for any other value. */
  function TypeName(o: GitObjectType): (r: bytes)
    ensures |r| > 0
  {
    if o == Tree then Str("tree")
    else if o == Blob then Str("blob")
    else if o == Commit then Str("commit")
    else if o == Tag then Str("tag")
    else if o == OfsDelta then Str("ofsdelta")
    else if o == RefDelta then Str("refdelta")
    else Str("invalid(") + Decimal(o) + Str("))")
  }

  /** `StringToObjectType`: the inverse of `TypeName` on the six names, `Invalid` otherwise. */
  function TypeFromName(s: bytes): (r: GitObjectType)
    ensures r == Invalid || IsNamed(r)
  {
    if s == Str("tree") then Tree
    else if s == Str("blob") then Blob
    else if s == Str("commit") then Commit
    else if s == Str("tag") then Tag
    else if s == Str("ofsdelta") then OfsDelta
    else if s == Str("refdelta") then RefDelta
    else Invalid
  }

  /** A record decoded from a pack. `base` is the hex id of the base object
      for a REF_DELTA record and empty otherwise. */
  datatype GitObject = GitObject(objectType: GitObjectType, size: int, content: bytes, base: bytes)

  /** The kind codes, as the pack format fixes them. */
  lemma KindCodes()
    ensures [Invalid, Commit, Tree, Blob, Tag, OfsDelta, RefDelta] == [0, 1, 2, 3, 4, 6, 7]
    ensures forall o: GitObjectType :: IsNamed(o) <==> (1 <= o <= 7 && o != 5)
  {
  }

  /** Reading a named kind's name back gives the kind. */
  lemma NameRoundTrip(o: GitObjectType)
    requires IsNamed(o)
    ensures TypeFromName(TypeName(o)) == o
  {
    NamesDistinct();
  }

  /** A string that is not one of the six names reads as `Invalid`, and a
      string that reads as a named kind is exactly that kind's name. */
  lemma TypeFromNameOnlyNames(s: bytes)
    ensures TypeFromName(s) != Invalid ==> s == TypeName(TypeFromName(s))
    ensures (forall o: GitObjectType :: IsNamed(o) ==> s != TypeName(o)) ==> TypeFromName(s) == Invalid
  {
    if TypeFromName(s) == Invalid {
    } else {
      NamesDistinct();
    }
  }

  /** The six names are pairwise different. */
  lemma NamesDistinct()
    ensures Str("tree") != Str("blob") && Str("tree") != Str("commit") && Str("tree") != Str("tag")
    ensures Str("tree") != Str("ofsdelta") && Str("tree") != Str("refdelta")
    ensures Str("blob") != Str("commit") && Str("blob") != Str("tag")
    ensures Str("blob") != Str("ofsdelta") && Str("blob") != Str("refdelta")
    ensures Str("commit") != Str("tag") && Str("commit") != Str("ofsdelta") && Str("commit") != Str("refdelta")
    ensures Str("tag") != Str("ofsdelta") && Str("tag") != Str("refdelta")
    ensures Str("ofsdelta") != Str("refdelta")
  {
    assert Str("tree")[0] != Str("blob")[0];
    assert Str("tree")[0] != Str("tag")[1];
    assert |Str("tree")| != |Str("commit")|;
    assert Str("blob")[0] != Str("tree")[0];
    assert Str("ofsdelta")[0] != Str("refdelta")[0];
    assert Str("tag")[0] != Str("tree")[1];
    assert Str("tag")[1] != Str("tree")[1];
  }

  /** The name of a value without a meaning never collides with a kind's name. */
  lemma UnnamedNameIsDistinct(o: GitObjectType, k: GitObjectType)
    requires !IsNamed(o) && IsNamed(k)
    ensures TypeName(o) != TypeName(k)
  {
    assert |TypeName(o)| >= 11;
    assert |TypeName(k)| <= 8;
  }
}
