// From rule list to flashed chip: the updater finds in the built image exactly what the
// builder put there, and running it applies the rules.

module RomRoundTrip {
  import opened Words
  import opened NorFlash
  import opened UpdateManifest
  import opened WriteLock
  import opened UpdaterSpec
  import opened UpdateEffect
  import opened UpdateCompletes
  import opened CrashSafety
  import DowngradeGuard
  import Updater
  import opened RomStore
  import opened RomRules
  import opened RomMeaning
  import opened RomImage

  /** Memory below this segment belongs to the console: work RAM and the unpack buffer. */
  const FIRST_ROM_SEGMENT := 0x2000

  /** The image is mapped to the top of the address space, where no RAM covers it. */
  ghost predicate Loaded(env: Env, img: seq<u8>) {
    && |img| <= 0x10_0000
    && forall a :: FIRST_ROM_SEGMENT * 16 <= a < 0x10_0000 && 0x10_0000 - |img| <= a ==>
         env.memory[a] == img[a - (0x10_0000 - |img|)]
  }

  /** The image that a build leaves, in the console, with its manifest above the RAM. */
  ghost predicate InConsole(env: Env, img: seq<u8>, base: seq<u8>, st: Store, header: Version, cs: seq<Command>) {
    var list := RuleList(header, cs);
    && base != [] && Arranged(st, Top(base)) && Roomy(st, list)
    && IsImage(img, env.crc, base, st, list) && Loaded(env, img)
    && ManifestSegment(st.start, |list|) >= FIRST_ROM_SEGMENT
  }

  lemma HoldsInMemory(env: Env, img: seq<u8>, low: nat, k: int, data: seq<u8>)
    requires Loaded(env, img) && |img| == (0x1_0000 - low) * 16 && k >= FIRST_ROM_SEGMENT
    requires Holds(img, (k - low) * 16, data)
    ensures k * 16 + |data| <= 0x10_0000 && env.memory[k * 16..k * 16 + |data|] == data
  {
    var offset := (k - low) * 16;
    assert 0x10_0000 - |img| == low * 16;
    forall i | 0 <= i < |data| ensures env.memory[k * 16 + i] == data[i] {
      assert data[i] == img[offset..offset + |data|][i];
    }
  }

  lemma StoreIsMapped(env: Env, img: seq<u8>, base: seq<u8>, st: Store, header: Version, cs: seq<Command>)
    requires InConsole(env, img, base, st, header, cs)
    ensures Mapped(env, st)
  {
    hide Loaded, Holds, HoldsBase, Arranged, ManifestSegment, RuleList, Top, Segments, Lowest;
    var list := RuleList(header, cs);
    var low := Lowest(ManifestSegment(st.start, |list|));
    assert Roomy(st, list) && IsImage(img, env.crc, base, st, list);
    forall k | k in st.blocks
      ensures 0 <= k && k * 16 + |st.blocks[k]| <= |env.memory|
              && env.memory[k * 16..k * 16 + |st.blocks[k]|] == st.blocks[k]
    {
      ManifestIsBelow(st, base, list);
      BlockIsInside(st, Top(base), k);
      HoldsInMemory(env, img, low, k, st.blocks[k]);
    }
  }

  lemma FooterByte(env: Env, img: seq<u8>, segment: nat)
    requires Loaded(env, img) && segment % 0x100 == 0 && segment < 0x1_0000
    requires |img| == (0x1_0000 - Lowest(segment)) * 16 && img[|img| - 10] == segment / 0x100
    ensures ManifestBase(env) == segment * 16
  {
    assert 0xFFFF6 - (0x10_0000 - |img|) == |img| - 10;
  }

  lemma ManifestFields(memory: seq<u8>, at: nat, crc: seq<u8> -> u16, list: seq<u8>)
    requires |list| <= 0xFFFF && at + 4 + |list| <= |memory|
    requires memory[at..at + |ManifestBytes(crc, list)|] == ManifestBytes(crc, list)
    ensures Get16(memory, at) == |list| && Get16(memory, at + 2) == crc(list)
    ensures memory[at + 4..at + 4 + |list|] == list
  {
    LeLengths(|list|, crc(list));
    hide Le16;
    var m := memory[at..at + |ManifestBytes(crc, list)|];
    assert m == Le16(|list|) + Le16(crc(list)) + list;
    SubSlice(memory, at, |m|, 0, 2);
    SubSlice(memory, at, |m|, 2, 4);
    SubSlice(memory, at, |m|, 4, |m|);
    assert m[0..2] == Le16(|list|) && m[2..4] == Le16(crc(list)) && m[4..|m|] == list;
    GetLe16(memory, at, |list|);
    GetLe16(memory, at + 2, crc(list));
  }

  lemma SubSlice(s: seq<u8>, at: nat, n: nat, i: nat, k: nat)
    requires at + n <= |s| && i <= k <= n
    ensures s[at..at + n][i..k] == s[at + i..at + k]
  {
    var a, b := s[at..at + n][i..k], s[at + i..at + k];
    assert |a| == |b| && forall j :: 0 <= j < |a| ==> a[j] == b[j];
    assert a == b;
  }

  lemma LeLengths(a: u16, b: u16)
    ensures |Le16(a)| == 2 && |Le16(b)| == 2
  {
  }

  /** The file in plain offsets.  Its 10th byte from the end is the manifest's 4 KiB page, which is
      the last one that leaves the manifest room below the data; the file starts at the highest of
      four places at or below it.  There stand the list's length and checksum and the list; each
      block stands 16 bytes a segment into the megabyte, and the updater's program ends the file. */
  lemma ImageLayout(img: seq<u8>, crc: seq<u8> -> u16, base: seq<u8>, st: Store, list: seq<u8>)
    requires base != [] && Arranged(st, Top(base)) && Roomy(st, list) && IsImage(img, crc, base, st, list)
    ensures |img| in {0x2_0000, 0x4_0000, 0x8_0000, 0x10_0000}
    ensures var page, first := img[|img| - 10] as int * 0x1000, 0x10_0000 - |img|;
            && first <= page && (|img| > 0x2_0000 ==> page < 0x10_0000 - |img| / 2)
            && page <= st.start * 16 - (|list| + 4) && st.start * 16 - (|list| + 4 + 15) / 16 * 16 < page + 0x1000
            && |img| >= page - first + 4 + |list|
            && Has16(img, page - first, |list|) && Has16(img, page - first + 2, crc(list))
            && img[page - first + 4..page - first + 4 + |list|] == list
            && (forall k :: k in st.blocks ==>
                  && 0 <= k * 16 - first && k * 16 - first + |st.blocks[k]| <= |img|
                  && img[k * 16 - first..k * 16 - first + |st.blocks[k]|] == st.blocks[k])
            && (forall i :: 0 <= i < |base| && i != |base| - 10 ==> img[|img| - |base| + i] == base[i])
  {
    hide Holds, HoldsBase, Arranged, Segments, ManifestSegment, Lowest, ManifestBytes, Has16, Top;
    var segment := ManifestSegment(st.start, |list|);
    var low := Lowest(segment);
    ManifestIsBelow(st, base, list);
    StartIsLow(st, base);
    PageOf(st.start, |list|);
    SizeOf(segment);
    var at := (segment - low) * 16;
    HeldManifest(img, at, crc, list);
    forall k | k in st.blocks
      ensures 0 <= (k - low) * 16 && (k - low) * 16 + |st.blocks[k]| <= |img|
              && img[(k - low) * 16..(k - low) * 16 + |st.blocks[k]|] == st.blocks[k]
    {
      HeldBlock(img, (k - low) * 16, st.blocks[k]);
    }
    HeldBase(img, base);
  }

  lemma StartIsLow(st: Store, base: seq<u8>)
    requires base != [] && Arranged(st, Top(base))
    ensures st.start < 0x1_0000
  {
  }

  lemma PageOf(start: int, n: nat)
    requires (n + 4 + 15) / 16 <= start < 0x1_0000
    ensures var page := ManifestSegment(start, n) / 0x100 * 0x1000;
            && page == ManifestSegment(start, n) * 16
            && page <= start * 16 - (n + 4) && start * 16 - (n + 4 + 15) / 16 * 16 < page + 0x1000
  {
    var x := start - (n + 4 + 15) / 16;
    assert x % 0x1_0000 == x;
    assert ManifestSegment(start, n) == x / 0x100 * 0x100;
  }

  lemma SizeOf(segment: nat)
    requires segment < 0x1_0000
    ensures var low := Lowest(segment);
            var size := (0x1_0000 - low) * 16;
            && size in {0x2_0000, 0x4_0000, 0x8_0000, 0x10_0000} && low <= segment
            && (size > 0x2_0000 ==> segment * 16 < 0x10_0000 - size / 2)
  {
  }

  lemma HeldManifest(img: seq<u8>, at: nat, crc: seq<u8> -> u16, list: seq<u8>)
    requires |list| <= 0xFFFF && Holds(img, at, ManifestBytes(crc, list))
    ensures at + 4 + |list| <= |img|
    ensures Has16(img, at, |list|) && Has16(img, at + 2, crc(list)) && img[at + 4..at + 4 + |list|] == list
  {
    LeLengths(|list|, crc(list));
    ManifestFields(img, at, crc, list);
  }

  lemma HeldBlock(img: seq<u8>, offset: int, data: seq<u8>)
    requires Holds(img, offset, data)
    ensures 0 <= offset && offset + |data| <= |img| && img[offset..offset + |data|] == data
  {
  }

  lemma HeldBase(img: seq<u8>, base: seq<u8>)
    requires HoldsBase(img, base)
    ensures |base| <= |img| && forall i :: 0 <= i < |base| && i != |base| - 10 ==> img[|img| - |base| + i] == base[i]
  {
  }

  /** The footer byte leads to the manifest's length, checksum and list. */
  lemma FooterFindsManifest(env: Env, img: seq<u8>, base: seq<u8>, st: Store, header: Version, cs: seq<Command>)
    requires InConsole(env, img, base, st, header, cs)
    ensures var list := RuleList(header, cs);
            var at := ManifestBase(env);
            && at == ManifestSegment(st.start, |list|) * 16
            && at + 4 + |list| <= 0x10_0000
            && Get16(env.memory, at) == |list|
            && Get16(env.memory, at + 2) == env.crc(list)
            && env.memory[at + 4..at + 4 + |list|] == list
  {
    hide Loaded, Holds, HoldsBase, Arranged, ManifestSegment, RuleList, Top, Segments, Lowest, ManifestBase, Get16;
    var list := RuleList(header, cs);
    var segment := ManifestSegment(st.start, |list|);
    assert Roomy(st, list) && IsImage(img, env.crc, base, st, list);
    FooterByte(env, img, segment);
    HoldsInMemory(env, img, Lowest(segment), segment, ManifestBytes(env.crc, list));
    ManifestFields(env.memory, segment * 16, env.crc, list);
  }

  /** The manifest buffer walks back to the commands the builder emitted. */
  lemma BufferWalksBack(env: Env, img: seq<u8>, base: seq<u8>, st: Store, header: Version, cs: seq<Command>)
    requires InConsole(env, img, base, st, header, cs) && |RuleList(header, cs)| <= MANIFEST_SIZE
    ensures var list := RuleList(header, cs);
            var b := ManifestBuffer(env, |list|);
            b[..|list|] == list && b[..VERSION_SIZE] == header
            && Parse(b[VERSION_SIZE..]) == Parsed(cs, Terminated)
  {
    hide Parse, ManifestBase, EncodeAll, InConsole;
    FooterFindsManifest(env, img, base, st, header, cs);
    var list := RuleList(header, cs);
    var b := ManifestBuffer(env, |list|);
    var zeros := seq(MANIFEST_SIZE - |list|, _ => 0);
    assert b == list + zeros;
    assert b[VERSION_SIZE..] == EncodeAll(cs) + [0] + zeros;
    ParseEncode(cs, zeros);
  }

  /** Main result: booting the image means running the session on exactly the commands the
      builder emitted, unless their list is longer than the updater's buffer. */
  lemma BootRunsBuiltList(env: Env, f: seq<u8>, img: seq<u8>, base: seq<u8>, st: Store, header: Version, cs: seq<Command>)
    requires InConsole(env, img, base, st, header, cs)
    ensures Boot(env, f) ==
            if |RuleList(header, cs)| > 512 then Outcome([], true)
            else Session(env, f, header, Parsed(cs, Terminated))
  {
    hide Session, Parse, ManifestBase, InConsole, RuleList, ManifestBuffer;
    FooterFindsManifest(env, img, base, st, header, cs);
    if |RuleList(header, cs)| <= MANIFEST_SIZE {
      BufferWalksBack(env, img, base, st, header, cs);
    }
  }

  /** So a built image meets what the running updater asks of its memory. */
  lemma BuiltImageIsWalkable(env: Env, img: seq<u8>, base: seq<u8>, st: Store, header: Version, cs: seq<Command>)
    requires InConsole(env, img, base, st, header, cs) && Updater.InRange(cs)
    ensures Updater.Walkable(env)
  {
    hide Parse, ManifestBase, InConsole, RuleList, ManifestBuffer;
    FooterFindsManifest(env, img, base, st, header, cs);
    if |RuleList(header, cs)| <= MANIFEST_SIZE {
      BufferWalksBack(env, img, base, st, header, cs);
    }
  }

  /** The rules and files are such that the builder stores them faithfully. */
  ghost predicate Sound(env: Env, rules: seq<Rule>) {
    forall r :: r in rules ==> HasData(r) && Unpacks(env, r)
  }

  /** A build of `rules`, running on this machine. */
  ghost predicate Build(env: Env, img: seq<u8>, base: seq<u8>, header: Version, rules: seq<Rule>, b: Built) {
    && AddRules(env.crc, Empty(Top(base)), rules) == Ok(b)
    && InConsole(env, img, base, b.store, header, b.commands)
    && Sound(env, rules)
  }

  lemma BuildInstalls(env: Env, img: seq<u8>, base: seq<u8>, header: Version, rules: seq<Rule>, b: Built, j: nat, v: u8)
    requires Build(env, img, base, header, rules, b)
    ensures Installed(env, b.commands, j, v) == PartByPartAll(env, rules, j, v)
    ensures (exists c :: c in b.commands && Refused(env, c)) <==> (exists r :: r in rules && TurnedDown(env, r))
  {
    StoreIsMapped(env, img, base, b.store, header, b.commands);
    hide AddRules, Mapped, HasData, Unpacks, InConsole, Refused, TurnedDown;
    assert Tidy(Empty(Top(base)), Top(base));
    RulesInstall(env, Empty(Top(base)), Top(base), rules, b.store, j, v);
  }

  /** Main result: an update that runs to its end leaves every byte outside the manifests'
      sectors as if each rule for this board had been applied directly, in order.  Bytes of a
      protected area stay as they were, and those that files or manifests claim were in place. */
  lemma UpdateAppliesRules(env: Env, f: seq<u8>, img: seq<u8>, base: seq<u8>, header: Version,
                           rules: seq<Rule>, b: Built, j: nat)
    requires Build(env, img, base, header, rules, b)
    requires forall r :: r in rules ==> AsWritten(r)
    requires j < |f| && !InManifest(env, b.commands, j)
    ensures var e := Opened(env, b.commands);
            !Boot(env, f).halted ==>
              && Apply(f, Boot(env, f).ops)[j] == (if Protected(e, j) then f[j] else DirectAll(env, rules, j, f[j]))
              && LocksAgree(e, f, header, b.commands)
  {
    hide AddRules, InConsole, Sound, AsWritten, Reaches, Pass, Opened, IsDowngrade, LockAgrees;
    BootRunsBuiltList(env, f, img, base, b.store, header, b.commands);
    if !Boot(env, f).halted {
      var e, v := Opened(env, b.commands), FinalVersion(header, b.commands);
      OpenedLayout(env, b.commands, f, b.commands);
      PassInstalls(e, f, v, b.commands, Flashing(true), j, f[j]);
      SameInstalled(e, env, b.commands, j, f[j]) by { OpenedSame(env, b.commands); }
      BuildInstalls(env, img, base, header, rules, b, j, f[j]);
      CleanSplitsAreDirect(env, rules, j, f[j]);
      SessionNeedsLocks(env, f, header, Parsed(b.commands, Terminated));
    }
  }

  /** The checks of a session that do not depend on single rules. */
  predicate Acceptable(env: Env, f: seq<u8>, header: Version, cs: seq<Command>) {
    && |RuleList(header, cs)| <= MANIFEST_SIZE
    && Get16(header, 0) == UM_ID
    && !(IsDowngrade(ReadFlash(f, VersionAddress(0, cs), VERSION_SIZE), header) && VersionAddress(0, cs) >= FACTORY_END)
  }

  /** Main result: with manifests clear of data, every finish started and everything on the chip,
      the update runs to its end exactly when no rule is turned down, the version checks pass,
      the rules send at most one part to this board's microcontroller, and what the list
      compares in a protected area is in place already. */
  lemma UpdateCompletesIff(env: Env, f: seq<u8>, img: seq<u8>, base: seq<u8>, header: Version, rules: seq<Rule>, b: Built)
    requires Build(env, img, base, header, rules, b)
    requires Apart(env, b.commands) && Paired(b.commands)
    requires forall c :: c in b.commands ==> Fits(env, f, c)
    ensures !Boot(env, f).halted <==>
              && Acceptable(env, f, header, b.commands) && !(exists r :: r in rules && TurnedDown(env, r))
              && RuleMcuParts(env, rules) <= 1 && LocksAgree(Opened(env, b.commands), f, header, b.commands)
  {
    hide AddRules, InConsole, Sound, Pass, Apart, Paired, Fits, Refused, TurnedDown, RuleList, IsDowngrade,
         LocksAgree, Opened, McuParts, RuleMcuParts;
    var cs, v, e := b.commands, FinalVersion(header, b.commands), Opened(env, b.commands);
    BootRunsBuiltList(env, f, img, base, b.store, header, cs);
    BuildInstalls(env, img, base, header, rules, b, 0, 0);
    VerifyPassIsDry(env, f, header, cs);
    DowngradeGuard.HeaderKept(header, cs, ReadFlash(f, VersionAddress(0, cs), VERSION_SIZE));
    if Acceptable(env, f, header, cs) && !(exists r :: r in rules && TurnedDown(env, r)) {
      RulesMcu(env, Empty(Top(base)), rules);
      PairedIsReady(f, v, cs);
      OpenedLayout(env, cs, f, cs);
      LocksSameVersion(e, f, header, cs, cs);
      PassCompletesIff(e, f, v, cs, Flashing(true));
    }
  }

  /** The condition on the protected area is met by every list that starts a manifest of the
      factory area last, and by every list that keeps out of that area. */
  lemma ProtectedAreaIsNoObstacle(env: Env, f: seq<u8>, header: Version, cs: seq<Command>)
    requires VersionAddress(0, cs) < FACTORY_END || StaysOut(env, cs)
    ensures LocksAgree(Opened(env, cs), f, header, cs)
  {
    if VersionAddress(0, cs) >= FACTORY_END {
      StaysOutAgrees(env, f, header, cs);
    }
  }

  /** And then every manifest whose last command is a finish holds the update's version with
      partial_install 0. */
  lemma UpdateSealsManifests(env: Env, f: seq<u8>, img: seq<u8>, base: seq<u8>, header: Version,
                             rules: seq<Rule>, b: Built, i: nat)
    requires Build(env, img, base, header, rules, b)
    requires Apart(env, b.commands) && Paired(b.commands)
    requires forall c :: c in b.commands ==> Fits(env, f, c)
    requires !Boot(env, f).halted && i < |b.commands| && b.commands[i].FinishManifest?
    requires forall k :: i < k < |b.commands| ==>
               !(b.commands[k].StartManifest? && b.commands[k].address == b.commands[i].address)
    ensures ReadFlash(Apply(f, Boot(env, f).ops), b.commands[i].address, VERSION_SIZE) == SetPartial(header, 0)
  {
    hide AddRules, InConsole, Sound, Pass, Apart, Paired, Fits, Refused, TurnedDown, RuleList, IsDowngrade, Opened;
    var cs := b.commands;
    BootRunsBuiltList(env, f, img, base, b.store, header, cs);
    VerifyPassIsDry(env, f, header, cs);
    PairedIsReady(f, FinalVersion(header, cs), cs);
    OpenedLayout(env, cs, f, cs);
    FinishedManifestReads(Opened(env, cs), f, FinalVersion(header, cs), cs, Flashing(true), i);
    FinalLabel(header, cs);
  }
}
