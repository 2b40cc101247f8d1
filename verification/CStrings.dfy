/** What vsnprintf stores into a buffer and what strncpy copies out of one, byte for byte. */
module CStrings {

  type Byte = b: int | 0 <= b < 256

  const NUL: Byte := 0

  function Min(a: int, b: int): int {
    if a < b then a else b
  }

  /** The bytes vsnprintf stores when the formatted text is `text` and there is room for `room`. */
  function Image(text: seq<Byte>, room: nat): (bytes: seq<Byte>)
    ensures |bytes| <= room
  {
    if room == 0 then [] else text[..Min(|text|, room - 1)] + [NUL]
  }

  function Put<T>(mem: seq<T>, offset: nat, bytes: seq<T>): (r: seq<T>)
    requires offset + |bytes| <= |mem|
    ensures |r| == |mem|
  {
    mem[..offset] + bytes + mem[offset + |bytes|..]
  }

  function VsnPrintf(mem: seq<Byte>, offset: nat, text: seq<Byte>): seq<Byte>
    requires offset <= |mem|
  {
    Put(mem, offset, Image(text, |mem| - offset))
  }

  /** strncpy(dst, src, |src|): up to the first NUL, then NULs. */
  function StrNCpy(src: seq<Byte>): (copy: seq<Byte>)
    ensures |copy| == |src|
  {
    if src == [] then []
    else if src[0] == NUL then seq(|src|, i => NUL)
    else [src[0]] + StrNCpy(src[1..])
  }

  /** The next byte depends only on the bytes copied so far and the byte of the source: this is
      what makes a byte-by-byte copy possible. */
  lemma {:induction false} StrNCpyAt(src: seq<Byte>, i: nat)
    requires i < |src|
    ensures StrNCpy(src)[i] == if NUL in StrNCpy(src)[..i] then NUL else src[i]
    ensures NUL in StrNCpy(src)[..i] <==> NUL in src[..i]
  {
    if src[0] == NUL {
      assert i > 0 ==> StrNCpy(src)[..i][0] == NUL && src[..i][0] == NUL;
    } else if i > 0 {
      StrNCpyAt(src[1..], i - 1);
      assert StrNCpy(src)[..i] == [src[0]] + StrNCpy(src[1..])[..i - 1];
      assert src[..i] == [src[0]] + src[1..][..i - 1];
    }
  }

  lemma NextByte(src: seq<Byte>, copied: seq<Byte>)
    requires |copied| < |src| && copied == StrNCpy(src)[..|copied|]
    ensures copied + [if NUL in copied then NUL else src[|copied|]] == StrNCpy(src)[..|copied| + 1]
  {
    StrNCpyAt(src, |copied|);
    PrefixOneMore(StrNCpy(src), |copied|);
  }

  lemma PrefixOneMore<T>(s: seq<T>, i: nat)
    requires i < |s|
    ensures s[..i + 1] == s[..i] + [s[i]]
  {
  }

  function Padding(n: nat): seq<Byte> {
    seq(n, i => NUL)
  }

  lemma {:induction false} StrNCpyOfText(text: seq<Byte>, rest: seq<Byte>)
    requires NUL !in text && |rest| > 0 && rest[0] == NUL
    ensures StrNCpy(text + rest) == text + Padding(|rest|)
  {
    if text == [] {
      assert text + rest == rest;
    } else {
      assert (text + rest)[1..] == text[1..] + rest;
      StrNCpyOfText(text[1..], rest);
    }
  }

  /** Reading back where a text was written gives as much of the text as fits in front of the
      terminator, padded with NULs; and no byte outside the stored range has changed. */
  lemma WriteThenRead(mem: seq<Byte>, offset: nat, text: seq<Byte>)
    requires offset < |mem| && NUL !in text
    ensures var kept := Min(|text|, |mem| - offset - 1);
            && StrNCpy(VsnPrintf(mem, offset, text)[offset..]) == text[..kept] + Padding(|mem| - offset - kept)
            && (forall i :: 0 <= i < |mem| && !(offset <= i <= offset + kept) ==>
                  VsnPrintf(mem, offset, text)[i] == mem[i])
  {
    var kept := Min(|text|, |mem| - offset - 1);
    var after := VsnPrintf(mem, offset, text);
    assert after[offset..] == text[..kept] + ([NUL] + mem[offset + kept + 1..]);
    StrNCpyOfText(text[..kept], [NUL] + mem[offset + kept + 1..]);
  }
}
