/** Serving an object (internal/storage/store.go): the verified copy loop and the digest check after it. */
module Streaming {
  import opened Base
  import opened Machine

  datatype CopyError = NoError | ReadError | WriteError | ShortWrite

  /** How one turn of the loop goes: bytes read and written, and which calls fail. */
  datatype Turn = Turn(read: nat, readFails: bool, write: nat, writeFails: bool)

  /** A call fails, or less is written than was read. */
  predicate Troubled(t: Turn) {
    t.readFails || t.writeFails || t.write < t.read
  }

  function Min(a: nat, b: nat): (m: nat) {
    if a < b then a else b
  }

  class Object {
    const p: Params
    const key: string
    const file: Bytes
    const verify: bool
    var pos: nat
    var hashed: Bytes
    var served: nat

    /** With verification on, the hasher has seen exactly what was read so far. */
    ghost predicate Valid()
      reads this
    {
      pos <= |file| && (verify ==> hashed == file[..pos])
    }

    constructor (p: Params, key: string, file: Bytes, verify: bool)
      ensures Valid() && pos == 0 && served == 0
      ensures this.p == p && this.key == key && this.file == file && this.verify == verify
    {
      this.p, this.key, this.file, this.verify := p, key, file, verify;
      pos, hashed, served := 0, [], 0;
    }

    /** One Read: some prefix of what is left, hashed on the way. */
    method Read(want: nat) returns (chunk: Bytes)
      requires Valid()
      modifies this
      ensures Valid() && pos == old(pos) + |chunk| && served == old(served) + |chunk|
      ensures chunk == file[old(pos)..pos] && |chunk| == Min(want, |file| - old(pos))
    {
      chunk := file[pos..pos + Min(want, |file| - pos)];
      pos, served := pos + |chunk|, served + |chunk|;
      if verify {
        hashed := hashed + chunk;
      }
    }

    /**
    The copy loop over a buffer, for any pattern of short reads and writes. A nil
    error means everything from the current position was delivered and hashed;
    any outcome delivers a prefix of it. Short reads alone never fail it; an error
    is that of the last of the turns taken, and no turn before it read with an
    error. script gives the turns that are not plain full reads and writes.
    */
    method CopyVerified(bufSize: nat, script: seq<Turn>) returns (out: Bytes, err: CopyError, ghost turns: nat)
      requires Valid() && verify && bufSize > 0
      modifies this
      ensures Valid()
      ensures out <= file[old(pos)..] && served == old(served) + |out|
      ensures err == NoError ==> out == file[old(pos)..] && pos == |file| && hashed == file
      ensures (forall i :: 0 <= i < |script| ==> !Troubled(script[i])) ==> err == NoError
      ensures turns > 0 && (err != NoError ==> turns <= |script|)
      ensures err == ReadError ==> script[turns - 1].readFails
      ensures err == WriteError ==> script[turns - 1].writeFails && script[turns - 1].read > 0
      ensures err == ShortWrite ==> script[turns - 1].write < script[turns - 1].read && !script[turns - 1].writeFails
      ensures forall i :: 0 <= i < turns - 1 && i < |script| ==> !script[i].readFails
      ensures err == NoError && turns <= |script| ==> !script[turns - 1].readFails
    {
      out, err, turns := [], NoError, 0;
      var k := 0;
      ghost var start := pos;
      while true
        invariant start <= pos <= |file| && hashed == file[..pos]
        invariant out == file[start..pos] && served == old(served) + |out|
        invariant turns == k && forall i :: 0 <= i < k && i < |script| ==> !script[i].readFails
        decreases if k < |script| then |script| - k else 0, |file| - pos
      {
        var turn := if k < |script| then script[k] else Turn(bufSize, false, bufSize, false);
        k, turns := k + 1, turns + 1;
        var atEnd := pos == |file|;
        var nr := Min(Min(turn.read, bufSize), |file| - pos);
        var chunk := file[pos..pos + nr];
        assert file[..pos] + chunk == file[..pos + nr] && file[start..pos] + chunk == file[start..pos + nr];
        pos := pos + nr;
        if nr > 0 {
          hashed := hashed + chunk;
          var nw := Min(turn.write, nr);
          out := out + chunk[..nw];
          served := served + nw;
          if turn.writeFails {
            return out, WriteError, turns;
          }
          if nw != nr {
            return out, ShortWrite, turns;
          }
        }
        if turn.readFails {
          return out, ReadError, turns;
        }
        if atEnd {
          return out, NoError, turns;
        }
      }
    }

    /** After a complete read, Verify accepts exactly the files whose bytes hash to the key. */
    method Verify() returns (ok: bool)
      requires Valid()
      ensures ok <==> !verify || p.digest(file[..pos]) == key
      ensures pos == |file| ==> (ok <==> !verify || p.digest(file) == key)
    {
      assert pos == |file| ==> file[..pos] == file;
      ok := !verify || p.digest(hashed) == key;
    }
  }
}
