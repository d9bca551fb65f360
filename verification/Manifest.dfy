/** The manifest once parsed: what the builder and the id pass work on (src/elfrc/manifest.h). */
module Manifests {
  import opened Bytes

  datatype Metadata = Metadata(key: seq<byte>, value: seq<byte>)

  /** `file` is what reading the resource's file yields: None when it cannot be opened. */
  datatype Resource = Resource(
    name: seq<byte>, file: Option<seq<byte>>,
    typ: u32, language: u32, flags: u32,
    idExplicit: bool, id: u32, finalId: u32,
    metadata: seq<Metadata>)

  function Names(rs: seq<Resource>): (r: seq<seq<byte>>)
    ensures |r| == |rs|
  {
    seq(|rs|, i requires 0 <= i < |rs| => rs[i].name)
  }

  /** The lowest index that holds `name`, or |names| if none does. */
  function FirstIndex(names: seq<seq<byte>>, name: seq<byte>): (r: nat)
    ensures r <= |names|
    ensures r < |names| ==> names[r] == name
    ensures forall j :: 0 <= j < r ==> names[j] != name
  {
    if names == [] then 0
    else if names[0] == name then 0
    else
      var r := FirstIndex(names[1..], name) + 1;
      assert forall j :: 0 < j < r ==> names[j] == names[1..][j - 1];
      r
  }

  predicate HasMetadata(rs: seq<Resource>) {
    exists i :: 0 <= i < |rs| && rs[i].metadata != []
  }

  /** Some name occurs twice. */
  predicate IsLocalized(rs: seq<Resource>) {
    exists i, j :: 0 <= j < i < |rs| && rs[j].name == rs[i].name
  }

  predicate Readable(rs: seq<Resource>) {
    forall i :: 0 <= i < |rs| ==> rs[i].file.Some?
  }

  /** Strings in the manifest are C strings, and their lengths fit the fields that hold them. */
  predicate WellFormed(r: Resource) {
    && 0 !in r.name
    && |r.metadata| < 0x8000_0000
    && forall kv :: kv in r.metadata ==>
         0 !in kv.key && 0 !in kv.value && |kv.key| < TWO32 - 1 && |kv.value| < TWO32 - 1
  }

  predicate AllWellFormed(rs: seq<Resource>) {
    forall i :: 0 <= i < |rs| ==> WellFormed(rs[i])
  }
}
