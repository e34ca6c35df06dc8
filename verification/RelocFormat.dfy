/** The PE base-relocation table: its byte format and what a loader reads from it
    ("The .reloc Section (Image Only)" of the PE Format specification). */
module RelocFormat {
  import opened Bytes
  import opened ElfModel

  /** A 16-bit entry: 12 bits of page offset, 4 bits of type. */
  datatype Entry = Entry(offset: nat, kind: nat)

  datatype Block = Block(page: nat, entries: seq<Entry>)

  const ABSOLUTE: nat := 0
  const DIR64: nat := 10

  // ----- writing -----

  function EncodeEntries(es: seq<Entry>): (s: seq<byte>)
    ensures |s| == 2 * |es|
  {
    if es == [] then [] else ToLe(es[0].kind * 4096 + es[0].offset, 2) + EncodeEntries(es[1..])
  }

  function EncodeBlock(b: Block): (s: seq<byte>)
    ensures |s| == 8 + 2 * |b.entries|
  {
    ToLe(b.page, 4) + ToLe(8 + 2 * |b.entries|, 4) + EncodeEntries(b.entries)
  }

  function EncodeBlocks(bs: seq<Block>): seq<byte> {
    if bs == [] then [] else EncodeBlock(bs[0]) + EncodeBlocks(bs[1..])
  }

  // ----- reading -----

  function DecodeEntries(s: seq<byte>): seq<Entry>
    requires |s| % 2 == 0
  {
    if s == [] then []
    else [Entry(FromLe(s[..2]) % 4096, FromLe(s[..2]) / 4096)] + DecodeEntries(s[2..])
  }

  function BlockSize(s: seq<byte>): nat
    requires |s| >= 8
  {
    FromLe(s[4..8])
  }

  /** The first block of `s` has a size that fits. */
  predicate BlockFits(s: seq<byte>) {
    |s| >= 8 && 8 <= BlockSize(s) <= |s| && BlockSize(s) % 2 == 0
  }

  function FirstBlock(s: seq<byte>): Block
    requires BlockFits(s)
  {
    Block(FromLe(s[..4]), DecodeEntries(s[8..BlockSize(s)]))
  }

  /** Walks the blocks by their sizes; None if a size does not fit. */
  function DecodeBlocks(s: seq<byte>): Option<seq<Block>> {
    if s == [] then Some([])
    else if !BlockFits(s) then None
    else
      var rest := DecodeBlocks(s[BlockSize(s)..]);
      if rest.None? then None else Some([FirstBlock(s)] + rest.value)
  }

  /** The address an entry asks to fix up; entries of type 0 are padding. */
  function EntryFixup(page: nat, e: Entry): seq<nat> {
    if e.kind == DIR64 then [page + e.offset] else []
  }

  function PageFixups(page: nat, es: seq<Entry>): seq<nat> {
    if es == [] then [] else EntryFixup(page, es[0]) + PageFixups(page, es[1..])
  }

  function Fixups(bs: seq<Block>): seq<nat> {
    if bs == [] then [] else PageFixups(bs[0].page, bs[0].entries) + Fixups(bs[1..])
  }

  // ----- round trip -----

  predicate Encodable(b: Block) {
    b.page < TWO_32 && 8 + 2 * |b.entries| < TWO_32 &&
    forall i | 0 <= i < |b.entries| :: b.entries[i].offset < 4096 && b.entries[i].kind < 16
  }

  lemma WordRoundTrip(n: nat, k: nat)
    requires n < Pow256(k)
    ensures FromLe(ToLe(n, k)) == n
  {
    FromToLe(n, k);
    assert n % Pow256(k) == n by {
      DivModUnique(n, Pow256(k), 0, n);
    }
  }

  lemma {:induction false} EntriesRoundTrip(es: seq<Entry>)
    requires forall i | 0 <= i < |es| :: es[i].offset < 4096 && es[i].kind < 16
    ensures DecodeEntries(EncodeEntries(es)) == es
  {
    hide FromLe, ToLe, Pow256;
    if es != [] {
      var word, s := es[0].kind * 4096 + es[0].offset, EncodeEntries(es);
      Widths();
      WordRoundTrip(word, 2);
      assert s[..2] == ToLe(word, 2) && s[2..] == EncodeEntries(es[1..]);
      EntriesRoundTrip(es[1..]);
    }
  }

  lemma FirstBlockRoundTrip(b: Block, rest: seq<byte>)
    requires Encodable(b)
    ensures var s := EncodeBlock(b) + rest;
            BlockFits(s) && BlockSize(s) == 8 + 2 * |b.entries| && FirstBlock(s) == b && s[BlockSize(s)..] == rest
  {
    var s, size := EncodeBlock(b) + rest, 8 + 2 * |b.entries|;
    Widths();
    WordRoundTrip(b.page, 4);
    WordRoundTrip(size, 4);
    EntriesRoundTrip(b.entries);
    hide FromLe, ToLe, EncodeEntries, DecodeEntries, Encodable, Pow256;
    assert s[..4] == ToLe(b.page, 4);
    assert s[4..8] == ToLe(size, 4);
    assert s[8..size] == EncodeEntries(b.entries);
  }

  lemma {:induction false} BlocksRoundTrip(bs: seq<Block>)
    requires forall i | 0 <= i < |bs| :: Encodable(bs[i])
    ensures DecodeBlocks(EncodeBlocks(bs)) == Some(bs)
  {
    if bs != [] {
      hide BlockFits, BlockSize, FirstBlock, EncodeBlock, Encodable;
      FirstBlockRoundTrip(bs[0], EncodeBlocks(bs[1..]));
      BlocksRoundTrip(bs[1..]);
      assert bs == [bs[0]] + bs[1..];
    }
  }

  lemma {:induction false} PageFixupsConcat(page: nat, a: seq<Entry>, b: seq<Entry>)
    ensures PageFixups(page, a + b) == PageFixups(page, a) + PageFixups(page, b)
  {
    if a == [] {
      assert a + b == b;
    } else {
      assert (a + b)[1..] == a[1..] + b;
      PageFixupsConcat(page, a[1..], b);
    }
  }

  lemma {:induction false} EncodeConcat(a: seq<Block>, b: seq<Block>)
    ensures EncodeBlocks(a + b) == EncodeBlocks(a) + EncodeBlocks(b)
  {
    if a == [] {
      assert a + b == b;
    } else {
      assert (a + b)[1..] == a[1..] + b;
      EncodeConcat(a[1..], b);
    }
  }

  lemma {:induction false} FixupsConcat(a: seq<Block>, b: seq<Block>)
    ensures Fixups(a + b) == Fixups(a) + Fixups(b)
  {
    if a == [] {
      assert a + b == b;
    } else {
      assert (a + b)[1..] == a[1..] + b;
      FixupsConcat(a[1..], b);
    }
  }
}
