/**
 * The append buffer `struct abuf` (kilo.c:14-35): a byte buffer that starts
 * empty (`ABUF_INIT`) and only ever grows, by `abAppend`, at its end.
 * The buffer's storage is a sequence instead of a `realloc`ed block, so
 * `abFree` has nothing to release.
 */
module AppendBuffer {

  /** The two fields of a `struct abuf`, as a value. */
  datatype Contents = Contents(b: string, len: int)

  /** What one `abAppend` of `piece` does to a buffer's fields. */
  function AppendStep(st: Contents, piece: string): (r: Contents)
    ensures st.b <= r.b && r.b[|st.b|..] == piece
  {
    Contents(st.b + piece, st.len + |piece|)
  }

  /** The fields after appending the pieces, in order, to `ABUF_INIT`. */
  function Appends(pieces: seq<string>): (r: Contents)
    ensures r.len == |r.b|
  {
    if |pieces| == 0 then Contents([], 0)
    else AppendStep(Appends(pieces[..|pieces| - 1]), pieces[|pieces| - 1])
  }

  /** The pieces laid end to end. */
  function Concat(pieces: seq<string>): string {
    if |pieces| == 0 then [] else Concat(pieces[..|pieces| - 1]) + pieces[|pieces| - 1]
  }

  /** The sum of the pieces' lengths. */
  function TotalLength(pieces: seq<string>): nat {
    if |pieces| == 0 then 0 else TotalLength(pieces[..|pieces| - 1]) + |pieces[|pieces| - 1]|
  }

  /**
   * However many appends built a buffer from `ABUF_INIT`, it holds the
   * pieces end to end, and `len` is the sum of their lengths, which is the
   * number of bytes held.
   */
  lemma {:induction false} AppendsBuild(pieces: seq<string>)
    ensures Appends(pieces).b == Concat(pieces)
    ensures Appends(pieces).len == TotalLength(pieces) == |Appends(pieces).b|
  {
    if |pieces| > 0 {
      AppendsBuild(pieces[..|pieces| - 1]);
    }
  }

  /** Appending never disturbs what an earlier sequence of appends built. */
  lemma {:induction false} AppendsExtend(pieces: seq<string>, k: nat)
    requires k <= |pieces|
    ensures Appends(pieces[..k]).b <= Appends(pieces).b
    decreases |pieces|
  {
    if k < |pieces| {
      var init := pieces[..|pieces| - 1];
      assert init[..k] == pieces[..k];
      AppendsExtend(init, k);
    } else {
      assert pieces[..k] == pieces;
    }
  }

  class ABuf {
    /** `b` and `len` are the C struct's fields. */
    var b: string
    var len: int

    /** `len` counts the bytes `b` holds. */
    ghost predicate Valid()
      reads this
    {
      len == |b|
    }

    /** `ABUF_INIT`: no storage and length zero. */
    constructor ()
      ensures Valid() && b == [] && len == 0
      ensures Contents(b, len) == Appends([])
    {
      b := [];
      len := 0;
    }
  }

  /**
   * `abAppend(ab, s, len)`: the first `n` bytes of `s` go after the current
   * contents; a null buffer is left alone. The C code reads `len` bytes of
   * `s`, so they must exist.
   */
  method AbAppend(ab: ABuf?, s: string, n: int)
    requires 0 <= n <= |s|
    requires ab != null ==> ab.Valid()
    modifies ab
    ensures ab != null ==> ab.Valid()
    ensures ab != null ==> ab.b == old(ab.b) + s[..n] && ab.len == old(ab.len) + n
    ensures ab != null ==> Contents(ab.b, ab.len) == AppendStep(Contents(old(ab.b), old(ab.len)), s[..n])
  {
    if ab == null {
      return;
    }
    var grown := ab.b + s[..n];
    ab.b := grown;
    ab.len := ab.len + n;
  }
}
