/** The state of a merge of several readers (utils/io/content/contentreader.go): the heads that were read, and the
    rest of the files. */
module ReaderHeads {
  import opened Wrappers

  /** What source `i` still has to give: the record already read, then the rest of its file (None once it ended). */
  function PendingAt<T>(current: Option<T>, file: Option<seq<T>>): seq<T> {
    var rest := if file.Some? then file.value else [];
    if current.Some? then [current.value] + rest else rest
  }

  ghost function Pending<T>(current: array<Option<T>>, files: array<Option<seq<T>>>): (p: seq<seq<T>>)
    requires current.Length == files.Length
    reads current, files
    ensures |p| == current.Length
    ensures forall i :: 0 <= i < |p| ==> p[i] == PendingAt(current[i], files[i])
  {
    var c, f := current[..], files[..];
    seq(|c|, i requires 0 <= i < |c| => PendingAt(c[i], f[i]))
  }

  ghost function Size<T>(p: seq<seq<T>>): nat {
    if p == [] then 0 else |p[0]| + Size(p[1..])
  }

  lemma {:induction false} SizeUpdate<T>(p: seq<seq<T>>, i: nat, s: seq<T>)
    requires i < |p|
    ensures Size(p[i := s]) + |p[i]| == Size(p) + |s|
  {
    if i == 0 {
      assert p[i := s][1..] == p[1..];
    } else {
      assert p[i := s][1..] == p[1..][i - 1 := s];
      SizeUpdate(p[1..], i - 1, s);
    }
  }

  /** Reads the next record of source `i` when its head was used up. */
  method Refill<T>(current: array<Option<T>>, files: array<Option<seq<T>>>, i: nat) returns (ended: bool)
    requires current.Length == files.Length && i < current.Length
    modifies current, files
    ensures Pending(current, files) == old(Pending(current, files))
    ensures forall k :: 0 <= k < current.Length && k != i ==> current[k] == old(current[k])
    ensures old(current[i]).Some? ==> current[i] == old(current[i])
    ensures current[i].None? ==> Pending(current, files)[i] == []
    ensures current[i].Some? ==> Pending(current, files)[i] != [] && Pending(current, files)[i][0] == current[i].value
    ensures ended ==> current[i].None?
  {
    ended := false;
    ghost var p := Pending(current, files);
    if current[i].None? && files[i].Some? {
      var file: seq<T> := files[i].value;
      if file == [] {
        files[i] := None;
        ended := true;
      } else {
        current[i], files[i] := Some(file[0]), Some(file[1..]);
      }
      assert PendingAt(current[i], files[i]) == p[i];
      assert forall k :: 0 <= k < |p| && k != i ==> PendingAt(current[k], files[k]) == p[k];
    }
    assert Pending(current, files) == p;
  }

  method DropHead<T>(current: array<Option<T>>, files: array<Option<seq<T>>>, i: nat)
    requires current.Length == files.Length && i < current.Length && current[i].Some?
    requires (current as object) != (files as object)
    modifies current
    ensures Pending(current, files) == old(Pending(current, files))[i := old(Pending(current, files))[i][1..]]
    ensures forall k :: 0 <= k < current.Length && k != i ==> current[k] == old(current[k])
    ensures current[i].None?
  {
    ghost var p := Pending(current, files);
    current[i] := None;
    assert PendingAt(current[i], files[i]) == p[i][1..];
    assert Pending(current, files) == p[i := p[i][1..]];
  }
}
