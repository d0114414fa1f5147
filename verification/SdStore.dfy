/** The SD card's backing file, and the flat image it stands for (src/devices/sd_card.cpp). */
module SdStore {
  import opened Bytes

  const BLOCK: nat := 512
  const CHUNK: nat := 0x1_0000

  /** The flat image: what is in the file, and 0xff beyond its end. */
  function View(file: seq<byte>, i: nat): byte {
    if i < |file| then file[i] else 0xff
  }

  function Fill(n: nat, b: byte): (s: seq<byte>)
    ensures |s| == n
  {
    seq(n, _ => b)
  }

  lemma FillHead(n: nat, b: byte)
    requires n > 0
    ensures Fill(n, b) == [b] + Fill(n - 1, b)
  {
  }

  /** readBlockFromBackingFile; `len` is the length the card believes the file has. */
  function ReadBlock(file: seq<byte>, len: nat, offset: nat): (block: seq<byte>)
    ensures |block| == BLOCK
  {
    seq(BLOCK, i requires 0 <= i < BLOCK => if offset < len && offset + i < |file| then file[offset + i] else 0xff)
  }

  /** fseek and fwrite: a gap between the end of the file and the offset is filled with zeros. */
  function WriteAt(file: seq<byte>, offset: nat, data: seq<byte>): (file': seq<byte>)
    ensures |file'| == if |file| > offset + |data| then |file| else offset + |data|
  {
    var grown := if |file| < offset then file + Fill(offset - |file|, 0) else file;
    grown[..offset] + data + (if |grown| > offset + |data| then grown[offset + |data|..] else [])
  }

  /** expandBackingFile: file and believed length afterwards. */
  function Expanded(file: seq<byte>, len: nat, minimum: nat): (seq<byte>, nat) {
    if len < minimum then (file + Fill(minimum - len, 0xff), minimum) else (file, len)
  }

  function WriteBlock(file: seq<byte>, len: nat, offset: uint32, data: seq<byte>): (seq<byte>, nat) {
    var (grown, len') := Expanded(file, len, (offset + |data|) % 0x1_0000_0000);
    (WriteAt(grown, offset, data), len')
  }

  /** Expansion changes no visible byte. */
  lemma ExpansionIsInvisible(file: seq<byte>, len: nat, minimum: nat, i: nat)
    ensures View(Expanded(file, len, minimum).0, i) == View(file, i)
  {
  }

  /** What an overwrite promises: its bytes are seen at their place, and no other byte changes. */
  ghost predicate Overwrites(file: seq<byte>, file': seq<byte>, offset: nat, data: seq<byte>) {
    forall i: nat ::
      View(file', i) == if offset <= i < offset + |data| then data[i - offset] else View(file, i)
  }

  lemma WriteAtView(file: seq<byte>, offset: nat, data: seq<byte>, i: nat)
    ensures View(WriteAt(file, offset, data), i) ==
            if offset <= i < offset + |data| then data[i - offset]
            else if |file| <= i < offset then 0
            else View(file, i)
  {
  }

  /** A block write changes exactly its own bytes of the flat image, except when its end wraps past
      2^32 and a gap is left below it. */
  lemma WriteBlockIsExactIff(file: seq<byte>, offset: uint32, data: seq<byte>)
    requires |data| == BLOCK
    ensures Overwrites(file, WriteBlock(file, |file|, offset, data).0, offset, data)
            <==> offset + BLOCK < 0x1_0000_0000 || |file| >= offset
  {
    var (file', len') := WriteBlock(file, |file|, offset, data);
    var minimum := (offset + BLOCK) % 0x1_0000_0000;
    var grown := Expanded(file, |file|, minimum).0;
    forall i: nat
      ensures View(file', i) == if offset <= i < offset + |data| then data[i - offset]
                                else if |grown| <= i < offset then 0 else View(file, i)
    {
      ExpansionIsInvisible(file, |file|, minimum, i);
    }
    if offset + BLOCK < 0x1_0000_0000 || |file| >= offset {
      assert |grown| >= offset;
    } else {
      assert minimum < BLOCK && |grown| < offset;
      assert View(file', |grown|) == 0 && View(file, |grown|) == 0xff;
    }
  }
}
