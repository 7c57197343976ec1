// The build script as it runs: global tables filled rule by rule, then one file
// written piece by piece.  software/userland/manifest_to_rom.py

module RomBuilder {
  import opened Words
  import opened UpdateManifest
  import opened UpdaterSpec
  import opened RomStore
  import opened RomRules
  import opened RomImage

  class Builder {
    const base: seq<u8>
    const crc: seq<u8> -> u16
    var startSegment: int
    var dataAtPosition: map<int, seq<u8>>
    var dataPositionCache: map<seq<u8>, int>
    var ruleData: seq<u8>

    constructor (base: seq<u8>, crc: seq<u8> -> u16)
      ensures this.base == base && this.crc == crc
      ensures Tables() == Empty(Top(base)) && ruleData == []
    {
      this.base, this.crc := base, crc;
      startSegment := 0x1_0000 - (|base| + 15) / 16;
      dataAtPosition, dataPositionCache, ruleData := map[], map[], [];
    }

    ghost function Tables(): Store
      reads this
    {
      Store(startSegment, dataAtPosition, dataPositionCache)
    }

    method PlaceData(data: seq<u8>) returns (segment: int)
      modifies this`startSegment, this`dataAtPosition, this`dataPositionCache
      ensures Tables() == Placed(old(Tables()), data) && segment == Position(old(Tables()), data)
    {
      if data in dataPositionCache {
        return dataPositionCache[data];
      }
      startSegment := startSegment - (|data| + 15) / 16;
      dataAtPosition := dataAtPosition[startSegment := data];
      dataPositionCache := dataPositionCache[data := startSegment];
      segment := startSegment;
    }

    /** What a step must leave behind: the tables and bytes of the specification, or its error. */
    ghost predicate Follows(st: Store, bytes: seq<u8>, want: Result<Built>, error: Option<BuildError>)
      reads this
    {
      match want
      case Ok(b) => error == None && Tables() == b.store && ruleData == bytes + EncodeAll(b.commands)
      case Err(e) => error == Some(e)
    }

    method AddFilePart(mcu: bool, pos: int, data: seq<u8>, board: int) returns (error: Option<BuildError>)
      requires |data| <= MAXIMUM_PART_SIZE
      modifies this
      ensures Follows(old(Tables()), old(ruleData), AddPart(crc, mcu, old(Tables()), pos, data, board), error)
    {
      hide Encode;
      if pos % (if mcu then 0x800 else 0x100) != 0 {
        return Some(Unaligned);
      }
      var segment := PlaceData(data);
      if !Fits16(segment) || !Fits32(pos) || !Fits16(board) {
        return Some(OutOfRange);
      }
      var c := if mcu then McuPart(false, segment, |data|, pos, crc(data), board)
               else FlashPart(false, segment, |data|, pos, crc(data), board);
      EncodeOne(c);
      ruleData := ruleData + Encode(c);
      error := None;
    }

    /** The splitting loop. */
    method AddFile(mcu: bool, position: int, file: seq<u8>, board: int) returns (error: Option<BuildError>)
      modifies this
      ensures Follows(old(Tables()), old(ruleData), AddParts(crc, mcu, old(Tables()), position, file, board), error)
    {
      hide AddPart, EncodeAll;
      var pos, data := position, file;
      ghost var want := AddParts(crc, mcu, Tables(), pos, data, board);
      ghost var bytes := ruleData;
      ghost var done: seq<Command> := [];
      EncodeNone();
      PrependNothing(want);
      while |data| > MAXIMUM_PART_SIZE
        invariant want == Prepend(done, AddParts(crc, mcu, Tables(), pos, data, board))
        invariant ruleData == bytes + EncodeAll(done)
        decreases |data|
      {
        ghost var st := Tables();
        ghost var first := AddPart(crc, mcu, st, pos, data[..MAXIMUM_PART_SIZE], board);
        error := AddFilePart(mcu, pos, data[..MAXIMUM_PART_SIZE], board);
        if error.Some? {
          return;
        }
        EncodeMore(done, first.value.commands);
        PrependPrepend(done, first.value.commands,
          AddParts(crc, mcu, Tables(), pos + MAXIMUM_PART_SIZE, data[MAXIMUM_PART_SIZE..], board));
        done := done + first.value.commands;
        pos := pos + MAXIMUM_PART_SIZE;
        data := data[MAXIMUM_PART_SIZE..];
      }
      ghost var last := AddPart(crc, mcu, Tables(), pos, data, board);
      error := AddFilePart(mcu, pos, data, board);
      if last.Ok? {
        EncodeMore(done, last.value.commands);
      }
    }

    method AddOne(r: Rule) returns (error: Option<BuildError>)
      modifies this
      ensures Follows(old(Tables()), old(ruleData), AddRule(crc, old(Tables()), r), error)
    {
      hide Encode, AddParts, Padded;
      match r
      case Start(at) =>
        if !Fits32(at) {
          return Some(OutOfRange);
        }
        EncodeOne(StartManifest(at));
        ruleData := ruleData + Encode(StartManifest(at));
        error := None;
      case Finish(at) =>
        if !Fits32(at) {
          return Some(OutOfRange);
        }
        EncodeOne(FinishManifest(at));
        ruleData := ruleData + Encode(FinishManifest(at));
        error := None;
      case FlashFile(data, at, board) =>
        var padded := Padded(data, at >= 0);
        var position := at;
        if position < 0 {
          position := -position - |padded|;
        }
        error := AddFile(false, position, padded, BoardOf(board));
      case PackedFile(packed, unpacked, at, board) =>
        var position := at;
        if position < 0 {
          position := -position - |packed|;
        }
        if |unpacked| > 65535 {
          return Some(TooLarge);
        }
        if position % 0x100 != 0 {
          return Some(Unaligned);
        }
        var segment := PlaceData(packed);
        if !Fits16(segment) || !Fits32(position) || !Fits16(BoardOf(board)) {
          return Some(OutOfRange);
        }
        var c := FlashPart(true, segment, |unpacked|, position, crc(unpacked), BoardOf(board));
        EncodeOne(c);
        ruleData := ruleData + Encode(c);
        error := None;
      case McuFile(data, at, board) =>
        error := AddFile(true, at, data, BoardOf(board));
      case CheckRange(from, to) =>
        if !Fits16(from) || !Fits16(to) {
          return Some(OutOfRange);
        }
        EncodeOne(CheckBoardRange(from, to));
        ruleData := ruleData + Encode(CheckBoardRange(from, to));
        error := None;
    }

    /** The loop over the manifest's lines. */
    method AddAll(rules: seq<Rule>) returns (error: Option<BuildError>)
      modifies this
      ensures Follows(old(Tables()), old(ruleData), AddRules(crc, old(Tables()), rules), error)
    {
      hide AddRule, EncodeAll;
      ghost var want := AddRules(crc, Tables(), rules);
      ghost var bytes := ruleData;
      ghost var done: seq<Command> := [];
      EncodeNone();
      PrependNothing(want);
      assert rules[0..] == rules;
      for i := 0 to |rules|
        invariant want == Prepend(done, AddRules(crc, Tables(), rules[i..]))
        invariant ruleData == bytes + EncodeAll(done)
      {
        ghost var first := AddRule(crc, Tables(), rules[i]);
        assert rules[i..][1..] == rules[i + 1..];
        error := AddOne(rules[i]);
        if error.Some? {
          return;
        }
        EncodeMore(done, first.value.commands);
        PrependPrepend(done, first.value.commands, AddRules(crc, Tables(), rules[i + 1..]));
        done := done + first.value.commands;
      }
      assert rules[|rules|..] == [];
      assert done + [] == done;
      error := None;
    }

    method WriteAt(img: array<u8>, offset: nat, data: seq<u8>)
      requires offset + |data| <= img.Length
      modifies img
      ensures img[..] == Overwritten(old(img[..]), offset, data)
    {
      forall i | 0 <= i < |data| {
        img[offset + i] := data[i];
      }
    }

    /** The output file. */
    method Assemble(list: seq<u8>) returns (img: array<u8>)
      requires Arranged(Tables(), Top(base)) && Roomy(Tables(), list) && base != []
      ensures fresh(img) && IsImage(img[..], crc, base, Tables(), list)
    {
      hide Arranged, Holds, HoldsBase, PartImage, Overwritten, Segments;
      ghost var st := Tables();
      var segment := ManifestSegment(startSegment, |list|);
      var low := Lowest(segment);
      var length := (0x1_0000 - low) * 16;
      FirstFits(st, base, list);
      img := new u8[length](_ => 0xFF);
      WriteAt(img, length - |base|, base);
      ghost var before := img[..];
      img[length - 10] := segment / 0x100;
      FileEndsWith(before, img[..], base, segment / 0x100);
      WriteFirst(img[..], crc, base, st, list);
      WriteAt(img, (segment - low) * 16, ManifestBytes(crc, list));
      var left: set<int> := dataAtPosition.Keys;
      assert dataAtPosition.Keys - left == {};
      while left != {}
        invariant left <= dataAtPosition.Keys && img.Length == length
        invariant PartImage(img[..], crc, base, st, list, dataAtPosition.Keys - left)
        decreases left
      {
        hide Overwritten, PartImage, ManifestSegment, Lowest, HoldsBase;
        var k := AnyOf(left);
        WriteBlock(img[..], crc, base, st, list, dataAtPosition.Keys - left, k);
        WriteAt(img, (k - low) * 16, dataAtPosition[k]);
        assert dataAtPosition.Keys - left + {k} == dataAtPosition.Keys - (left - {k});
        left := left - {k};
      }
      WholeImage(img[..], crc, base, st, list);
    }

    /** The whole script, given the version block. */
    method Build(header: Version, rules: seq<Rule>) returns (error: Option<BuildError>, img: array<u8>)
      requires Tables() == Empty(Top(base)) && ruleData == [] && base != [] && |base| <= 0xE_0000
      modifies this
      ensures match AddRules(crc, Empty(Top(base)), rules)
              case Err(e) => error == Some(e)
              case Ok(b) =>
                var list := RuleList(header, b.commands);
                && (|list| > 0xFFFF ==> error == Some(ListTooLong))
                && (|list| <= 0xFFFF && (|list| + 4 + 15) / 16 > b.store.start ==> error == Some(DoesNotFit))
                && (|list| <= 0xFFFF && (|list| + 4 + 15) / 16 <= b.store.start ==>
                      error == None && IsImage(img[..], crc, base, b.store, list))
    {
      hide AddRules, EncodeAll, IsImage;
      ghost var built := AddRules(crc, Empty(Top(base)), rules);
      error := AddAll(rules);
      if error.Some? {
        img := new u8[0];
        return;
      }
      var list := header + (ruleData + [0]);
      assert list == RuleList(header, built.value.commands);
      if |list| > 0xFFFF {
        img := new u8[0];
        return Some(ListTooLong), img;
      }
      // a manifest below segment zero leaves a block at a negative file position
      if (|list| + 4 + 15) / 16 > startSegment {
        img := new u8[0];
        return Some(DoesNotFit), img;
      }
      RulesArranged(crc, Empty(Top(base)), Top(base), rules) by { EmptyIsArranged(base); }
      img := Assemble(list);
    }
  }

  /** A result with earlier commands put in front. */
  ghost function Prepend(done: seq<Command>, r: Result<Built>): Result<Built> {
    match r
    case Ok(b) => Ok(Built(b.store, done + b.commands))
    case Err(e) => Err(e)
  }

  lemma PrependPrepend(a: seq<Command>, b: seq<Command>, r: Result<Built>)
    ensures Prepend(a, Prepend(b, r)) == Prepend(a + b, r)
  {
    if r.Ok? {
      assert a + (b + r.value.commands) == a + b + r.value.commands;
    }
  }

  lemma EncodeNone()
    ensures EncodeAll([]) == []
  {
  }

  lemma EncodeOne(c: Command)
    ensures EncodeAll([c]) == Encode(c)
  {
    assert [c][1..] == [] && EncodeAll([c][1..]) == [];
  }

  lemma {:induction false} EncodeMore(a: seq<Command>, b: seq<Command>)
    ensures EncodeAll(a + b) == EncodeAll(a) + EncodeAll(b)
  {
    if a == [] {
      assert a + b == b;
    } else {
      assert (a + b)[1..] == a[1..] + b;
      EncodeMore(a[1..], b);
    }
  }

  lemma PrependNothing(r: Result<Built>)
    ensures Prepend([], r) == r
  {
    if r.Ok? {
      assert [] + r.value.commands == r.value.commands;
    }
  }

  lemma FileEndsWith(before: seq<u8>, img: seq<u8>, base: seq<u8>, footer: u8)
    requires |base| <= |img| && 10 <= |img| && |before| == |img| && Holds(before, |img| - |base|, base)
    requires img == before[|img| - 10 := footer]
    ensures HoldsBase(img, base) && img[|img| - 10] == footer
  {
    forall i | 0 <= i < |base| ensures before[|img| - |base| + i] == base[i] {
      assert base[i] == before[|img| - |base|..][i];
    }
  }

  lemma FirstFits(st: Store, base: seq<u8>, list: seq<u8>)
    requires Arranged(st, Top(base)) && Roomy(st, list) && base != []
    ensures var low := Lowest(ManifestSegment(st.start, |list|));
            0x100 <= (0x1_0000 - low) * 16 && |base| <= (0x1_0000 - low) * 16
            && low <= ManifestSegment(st.start, |list|)
  {
    ManifestIsBelow(st, base, list);
    TopIsAbove(st, base);
  }

  lemma SomeElement(s: set<int>)
    requires s != {}
    ensures exists k :: k in s
  {
    if forall k :: k !in s {
      NoElements(s);
    }
  }

  method AnyOf(s: set<int>) returns (k: int)
    requires s != {}
    ensures k in s
  {
    SomeElement(s);
    k :| k in s;
  }

  lemma NoElements(s: set<int>)
    requires forall k :: k !in s
    ensures s == {}
  {
    var t: set<int> := {};
    assert forall k :: k in s <==> k in t;
    assert s == t;
  }

  lemma WholeImage(img: seq<u8>, crc: seq<u8> -> u16, base: seq<u8>, st: Store, list: seq<u8>)
    requires |list| <= 0xFFFF && PartImage(img, crc, base, st, list, st.blocks.Keys - {})
    ensures IsImage(img, crc, base, st, list)
  {
  }

  lemma EmptyIsArranged(base: seq<u8>)
    ensures Arranged(Empty(Top(base)), Top(base))
  {
  }
}
