/** The patch descriptor `ucm_bistro_patch_t` as the RISC-V header declares
    it: five `uint32_t` words, `uhi, ulo, sli, lhi, jalr`, packed.

    The encoder in bistro_riscv64.c does not fill this type: it initialises
    fields `.auipc` and `.jalr`, and the header declares `jalr` but no
    `auipc`, so that initialiser does not match the declared type. The
    encoder is modelled as the two-word value the initialiser implies
    (module `BistroEncoder`, `Image`); this module states the layout the
    header itself declares. */
module BistroLayout {
  import opened Bits
  import LittleEndian

  datatype Descriptor = Descriptor(uhi: U32, ulo: U32, sli: U32, lhi: U32, jalr: U32)

  /** `UCS_S_PACKED`: five four-byte words and no padding. */
  const FieldCount: nat := 5
  const Size: nat := 20

  /** Field `i` in declaration order. */
  function Field(d: Descriptor, i: nat): U32
    requires i < FieldCount
  {
    match i
    case 0 => d.uhi
    case 1 => d.ulo
    case 2 => d.sli
    case 3 => d.lhi
    case _ => d.jalr
  }

  /** Byte offset of field `i`. */
  function Offset(i: nat): nat
    requires i < FieldCount
  {
    4 * i
  }

  /** The fields in declaration order. */
  function Words(d: Descriptor): (ws: seq<U32>)
    ensures |ws| == FieldCount
    ensures forall i :: 0 <= i < FieldCount ==> ws[i] == Field(d, i)
  {
    [d.uhi, d.ulo, d.sli, d.lhi, d.jalr]
  }

  /** The descriptor as it lies in memory: 20 bytes, word `i` at byte offset
      `4 * i`, each least significant byte first. */
  function Layout(d: Descriptor): (b: seq<LittleEndian.Byte>)
    ensures |b| == Size
    ensures forall i :: 0 <= i < FieldCount ==> LittleEndian.Word(b[Offset(i)..Offset(i) + 4]) == Field(d, i)
  {
    LittleEndian.Pack(Words(d))
  }

  /** Reads a descriptor back from memory; any other size is not one. */
  function Parse(b: seq<LittleEndian.Byte>): (r: Option<Descriptor>)
    ensures r.Some? <==> |b| == Size
  {
    if |b| != Size then None
    else
      var ws := LittleEndian.Unpack(b);
      Some(Descriptor(ws[0], ws[1], ws[2], ws[3], ws[4]))
  }

  /** Reading the layout of a descriptor gives the descriptor back. */
  lemma ParseLayout(d: Descriptor)
    ensures Parse(Layout(d)) == Some(d)
  {
    LittleEndian.UnpackPack(Words(d));
  }

  /** Every 20 bytes are the layout of the descriptor read from them. */
  lemma LayoutParse(b: seq<LittleEndian.Byte>)
    requires |b| == Size
    ensures Parse(b).Some? && Layout(Parse(b).value) == b
  {
    var ws := LittleEndian.Unpack(b);
    assert Words(Parse(b).value) == ws;
    LittleEndian.PackUnpack(b);
  }
}
