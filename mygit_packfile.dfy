/**
 * The second copy of the object-kind table, in the `mygit` command
 * (cmd/mygit/packFile.go). Its codes equal those of cmd/clone/objects.go;
 * its conversion from a raw byte keeps 5, and unnamed kinds have no name.
 */
module MygitPackFile {
  import opened GoLib
  import CloneObjects
  import CloneHelper

  type ObjectType = byte

  const Invalid: ObjectType := 0
  const Commit: ObjectType := 1
  const Tree: ObjectType := 2
  const Blob: ObjectType := 3
  const Tag: ObjectType := 4
  const OfsDelta: ObjectType := 6
  const RefDelta: ObjectType := 7

  /** `convertToObjectType`: values above 7 become `Invalid`, every other
      value is kept; the result is a named kind, `Invalid`, or the unassigned 5. */
  function ConvertToObjectType(s: byte): (r: ObjectType)
    ensures CloneObjects.IsNamed(r) || r == Invalid || r == 5
    ensures s > 7 ==> r == Invalid
    ensures s <= 7 ==> r == s
  {
    if s > 7 then Invalid else s
  }

  /** `ObjectType.ToGitType`. */
  function ToGitType(o: ObjectType): bytes {
    if o == Tree then Str("tree")
    else if o == Blob then Str("blob")
    else if o == Commit then Str("commit")
    else if o == Tag then Str("tag")
    else if o == OfsDelta then Str("ofsdelta")
    else if o == RefDelta then Str("refdelta")
    else []
  }

  /** The six named kinds get distinct, non-empty names; every other value gets "". */
  lemma ToGitTypeNames(o: ObjectType, p: ObjectType)
    ensures CloneObjects.IsNamed(o) <==> ToGitType(o) != []
    ensures CloneObjects.IsNamed(o) && CloneObjects.IsNamed(p) && o != p ==> ToGitType(o) != ToGitType(p)
  {
    CloneObjects.NamesDistinct();
  }

  /** The two packages agree: same codes, and the same name for every named kind. */
  lemma AgreesWithClone(o: ObjectType)
    ensures [Invalid, Commit, Tree, Blob, Tag, OfsDelta, RefDelta]
         == [CloneObjects.Invalid, CloneObjects.Commit, CloneObjects.Tree, CloneObjects.Blob,
             CloneObjects.Tag, CloneObjects.OfsDelta, CloneObjects.RefDelta]
    ensures CloneObjects.IsNamed(o) ==> ToGitType(o) == CloneObjects.TypeName(o)
  {
  }

  /** Conversion keeps the value 5, which neither table names. */
  lemma ConvertKeepsFive()
    ensures ConvertToObjectType(5) == 5 && ToGitType(ConvertToObjectType(5)) == []
  {
  }

  /** Applied to the type bits of a pack object header, the conversion
      agrees with the clone command's `HeaderType` on every value but 5,
      which it keeps where the clone command reads `Invalid`. */
  lemma ConvertAgreesWithHeader(b: byte)
    ensures b / 16 % 8 != 5 ==> ConvertToObjectType(b / 16 % 8) == CloneHelper.HeaderType(b)
    ensures b / 16 % 8 == 5 ==>
              ConvertToObjectType(b / 16 % 8) == 5 && CloneHelper.HeaderType(b) == CloneObjects.Invalid
  {
  }
}
