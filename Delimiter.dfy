/** Bytes, and the record delimiter of the MySQL slow query log. */
module Delimiter {

  /** One byte of the log file (the C code works on `char` buffers). */
  newtype byte = b: int | 0 <= b < 256

  /** QUERY_DELIM: the label that starts every record of the slow query log. */
  const QueryDelim: seq<byte> := [0x23, 0x20, 0x55, 0x73, 0x65, 0x72, 0x40, 0x48, 0x6F, 0x73, 0x74, 0x3A, 0x20]

  /** QUERY_DELIM_LEN */
  const QueryDelimLen: nat := 13

  /** The matcher never needs to remember more than this many bytes. */
  const Lookbehind: nat := QueryDelimLen - 1

  /** The delimiter is the ASCII text "# User@Host: ", 13 bytes long. */
  lemma QueryDelimIsUserHostLabel()
    ensures |QueryDelim| == |"# User@Host: "| == QueryDelimLen
    ensures forall i :: 0 <= i < QueryDelimLen ==> QueryDelim[i] as int == "# User@Host: "[i] as int
  {
  }

  /** A delimiter occurrence ends at the last byte of `s`. */
  predicate EndsWithDelim(s: seq<byte>)
  {
    |s| >= QueryDelimLen && s[|s| - QueryDelimLen..] == QueryDelim
  }

  /** The last `Lookbehind` bytes of `s` (all of `s` when it is shorter). */
  function Tail(s: seq<byte>): (t: seq<byte>)
    ensures |t| <= Lookbehind
    ensures |s| <= Lookbehind ==> t == s
    ensures |s| > Lookbehind ==> |t| == Lookbehind
  {
    if |s| <= Lookbehind then s else s[|s| - Lookbehind..]
  }

  /** Keeping only the `Lookbehind` last bytes of a history loses no occurrence
      of the delimiter that ends in bytes appended later. */
  lemma TailKeepsOccurrences(h: seq<byte>, y: seq<byte>)
    requires |y| > 0
    ensures EndsWithDelim(h + y) <==> EndsWithDelim(Tail(h) + y)
  {
    var t := Tail(h);
    var p := h[..|h| - |t|];
    if |h| > Lookbehind {
      assert h == p + t;
      assert h + y == p + (t + y);
      var x := t + y;
      assert |x| >= QueryDelimLen;
      assert (p + x)[|p + x| - QueryDelimLen..] == x[|x| - QueryDelimLen..];
    }
  }

  /** Tail of an extended history depends only on the Tail of the old one. */
  lemma TailOfAppend(h: seq<byte>, y: seq<byte>)
    ensures Tail(h + y) == Tail(Tail(h) + y)
  {
    var t := Tail(h);
    var p := h[..|h| - |t|];
    if |h| > Lookbehind {
      assert h == p + t;
      assert h + y == p + (t + y);
      var x := t + y;
      if |x| > Lookbehind {
        assert (p + x)[|p + x| - Lookbehind..] == x[|x| - Lookbehind..];
      }
    }
  }
}
