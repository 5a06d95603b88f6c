/**
 * Forward-jump chains.  A jump whose destination is not known yet is
 * emitted with its 16-bit offset slot holding a link to the previous
 * unresolved jump of the same dest instead (gen_jmpdst), the first one
 * linking to address 0.  Resolving the dest (dispatch_linked) walks the
 * chain from its newest site and overwrites every slot with the real
 * offset to the dest.
 */
module JumpLinks {
  import opened MachineInts
  import opened Wrappers

  /** JMPLINK_START: the head of an empty chain. */
  const JMPLINK_START: int := UINT32_MAX

  const JMP_TOO_BIG: string := "too big jmp offset"

  /** The signed 16-bit value in the slot at pos. */
  function Link(code: seq<byte>, pos: nat): int
    requires pos + 2 <= |code|
  {
    Int16Of(BE16(code[pos], code[pos + 1]))
  }

  /** The site dispatch moves on to from pos, or 0 when the chain ends. */
  function Next(code: seq<byte>, pos: nat): int
    requires pos + 2 <= |code|
  {
    if Link(code, pos) == 0 then 0 else pos + 2 + Link(code, pos)
  }

  /** The chain from pos runs strictly backwards through slots of the code and ends. */
  predicate Chain(code: seq<byte>, pos: nat)
    decreases pos
  {
    pos + 2 <= |code|
    && var n := Next(code, pos);
       n == 0 || (0 < n && n + 2 <= pos && Chain(code, n))
  }

  /**
   * The site dispatch returns after the slot at pos: `pos + 2 + link` as a
   * uint32_t, or 0 for a zero link.
   */
  function DispatchNext(code: seq<byte>, pos: nat): u32
    requires pos + 2 <= |code|
  {
    if Link(code, pos) == 0 then 0 else ToU32(pos + 2 + Link(code, pos))
  }

  /** The sites of the chain from pos, newest first. */
  function Sites(code: seq<byte>, pos: nat): (r: seq<nat>)
    requires Chain(code, pos)
    ensures |r| > 0 && r[0] == pos
    ensures forall k :: 0 <= k < |r| ==> r[k] <= pos && r[k] + 2 <= |code|
    decreases pos
  {
    var n := Next(code, pos);
    [pos] + (if n == 0 then [] else Sites(code, n))
  }

  /** The offset gen_jmpdst stores in a slot at `site` for destination `target`. */
  function JmpOffset(site: nat, target: int): int {
    (if target == JMPLINK_START then 0 else target) - (site + 2)
  }

  /** emit_S: overwrite the slot at pos with v, high byte first. */
  function PutS(code: seq<byte>, pos: nat, v: u16): (r: seq<byte>)
    requires pos + 2 <= |code|
    ensures |r| == |code| && r[pos] == Hi(v) && r[pos + 1] == Lo(v)
    ensures forall i :: 0 <= i < |code| && i != pos && i != pos + 1 ==> r[i] == code[i]
  {
    code[pos := Hi(v)][pos + 1 := Lo(v)]
  }

  /** The offset dispatch writes into the slot at `site` for a dest at `dest`. */
  function DispatchOffset(site: nat, dest: nat): int {
    dest - (site + 2)
  }

  /** Every slot of `sites` patched, in order, with its offset to dest. */
  function PatchAll(code: seq<byte>, sites: seq<nat>, dest: nat): (r: seq<byte>)
    requires forall k :: 0 <= k < |sites| ==> sites[k] + 2 <= |code|
    ensures |r| == |code|
    decreases |sites|
  {
    if sites == [] then code
    else PatchAll(PutS(code, sites[0], ToU16(DispatchOffset(sites[0], dest))), sites[1..], dest)
  }

  /**
   * dispatch_linked on the bytes alone: patch the slot at p with its
   * offset to dest, then go on with the site its old link named.  A slot
   * more than INT16_MAX bytes back is an error.
   */
  function ResolveChain(code: seq<byte>, p: nat, dest: nat): (r: Result<seq<byte>>)
    requires Chain(code, p)
    ensures r.Ok? ==> |r.value| == |code|
    decreases p
  {
    if DispatchOffset(p, dest) > INT16_MAX then Fail(JMP_TOO_BIG)
    else
      var code' := PutS(code, p, ToU16(DispatchOffset(p, dest)));
      var n := Next(code, p);
      if n == 0 then Ok(code')
      else
        NextAfterPatch(code, p, ToU16(DispatchOffset(p, dest)));
        ResolveChain(code', n, dest)
  }

  /** Slots that lie strictly below each other, two bytes apart at least. */
  predicate Spaced(sites: seq<nat>) {
    forall i, j :: 0 <= i < j < |sites| ==> sites[j] + 2 <= sites[i]
  }

  predicate InSlot(i: int, sites: seq<nat>) {
    exists k :: 0 <= k < |sites| && (i == sites[k] || i == sites[k] + 1)
  }

  // ---------------------------------------------------------------------
  // Properties
  // ---------------------------------------------------------------------

  /**
   * gen_jmpdst's slot links back to its target: following the stored
   * offset from the slot reaches the destination, and a chain start
   * (JMPLINK_START) reads back as the end of the chain.
   */
  lemma StoredLinkFollows(code: seq<byte>, site: nat, target: int)
    requires site + 2 <= |code| && IsInt16(JmpOffset(site, target))
    requires BE16(code[site], code[site + 1]) == ToU16(JmpOffset(site, target))
    requires JmpOffset(site, target) != 0
    ensures Next(code, site) == if target == JMPLINK_START then 0 else target
  {
    Int16RoundTrip(JmpOffset(site, target));
  }

  /** The chain and its sites depend only on the bytes up to the head's slot. */
  lemma {:induction false} ChainPrefix(code: seq<byte>, code': seq<byte>, pos: nat)
    requires Chain(code, pos)
    requires pos + 2 <= |code'| && code'[..pos + 2] == code[..pos + 2]
    ensures Chain(code', pos) && Sites(code', pos) == Sites(code, pos)
    decreases pos
  {
    assert code'[pos] == code[..pos + 2][pos];
    assert code'[pos + 1] == code[..pos + 2][pos + 1];
    assert Next(code', pos) == Next(code, pos);
    var n := Next(code, pos);
    if n != 0 {
      assert code'[..n + 2] == code'[..pos + 2][..n + 2];
      assert code[..n + 2] == code[..pos + 2][..n + 2];
      ChainPrefix(code, code', n);
    }
  }

  /** The sites of a chain are in range and spaced apart, so their slots are disjoint. */
  lemma {:induction false} SitesSpaced(code: seq<byte>, pos: nat)
    requires Chain(code, pos)
    ensures Spaced(Sites(code, pos))
    ensures forall k :: 0 <= k < |Sites(code, pos)| ==> Sites(code, pos)[k] <= pos && Sites(code, pos)[k] + 2 <= |code|
    decreases pos
  {
    var n := Next(code, pos);
    if n != 0 {
      SitesSpaced(code, n);
    }
  }

  /** Patching a list of sites after one more is patching the list, then the one. */
  lemma {:induction false} PatchAllSnoc(code: seq<byte>, sites: seq<nat>, p: nat, dest: nat)
    requires forall k :: 0 <= k < |sites| ==> sites[k] + 2 <= |code|
    requires p + 2 <= |code|
    ensures PatchAll(code, sites + [p], dest)
         == PutS(PatchAll(code, sites, dest), p, ToU16(DispatchOffset(p, dest)))
    decreases |sites|
  {
    if sites == [] {
      assert sites + [p] == [p];
    } else {
      var c1 := PutS(code, sites[0], ToU16(DispatchOffset(sites[0], dest)));
      assert (sites + [p])[1..] == sites[1..] + [p];
      PatchAllSnoc(c1, sites[1..], p, dest);
    }
  }

  /** Patching leaves every byte outside the slots of `sites` untouched. */
  lemma {:induction false} PatchAllOutside(code: seq<byte>, sites: seq<nat>, dest: nat, i: nat)
    requires forall k :: 0 <= k < |sites| ==> sites[k] + 2 <= |code|
    requires i < |code| && !InSlot(i, sites)
    ensures PatchAll(code, sites, dest)[i] == code[i]
    decreases |sites|
  {
    if sites != [] {
      var c1 := PutS(code, sites[0], ToU16(DispatchOffset(sites[0], dest)));
      var rest := sites[1..];
      assert i != sites[0] && i != sites[0] + 1 by {
        assert 0 < |sites|;
      }
      assert !InSlot(i, rest) by {
        forall j | 0 <= j < |rest| ensures i != rest[j] && i != rest[j] + 1 {
          assert sites[j + 1] == rest[j];
        }
      }
      PatchAllOutside(c1, rest, dest, i);
    }
  }

  /**
   * Resolving a label at `dest`: the slot of every site of a spaced list
   * ends up holding the site's offset to the label.
   */
  lemma {:induction false} PatchAllSlot(code: seq<byte>, sites: seq<nat>, dest: nat, k: nat)
    requires forall k :: 0 <= k < |sites| ==> sites[k] + 2 <= |code|
    requires Spaced(sites) && k < |sites|
    ensures var r := PatchAll(code, sites, dest);
            BE16(r[sites[k]], r[sites[k] + 1]) == ToU16(DispatchOffset(sites[k], dest))
    decreases |sites|
  {
    var c1 := PutS(code, sites[0], ToU16(DispatchOffset(sites[0], dest)));
    var rest := sites[1..];
    assert Spaced(rest) by {
      forall i, j | 0 <= i < j < |rest| ensures rest[j] + 2 <= rest[i] {
        assert rest[j] == sites[j + 1] && rest[i] == sites[i + 1];
      }
    }
    if k == 0 {
      forall i | i == sites[0] || i == sites[0] + 1
        ensures !InSlot(i, rest)
      {
        forall j | 0 <= j < |rest| ensures i != rest[j] && i != rest[j] + 1 {
          assert rest[j] == sites[j + 1];
        }
      }
      PatchAllOutside(c1, rest, dest, sites[0]);
      PatchAllOutside(c1, rest, dest, sites[0] + 1);
    } else {
      assert sites[k] == rest[k - 1];
      PatchAllSlot(c1, rest, dest, k - 1);
    }
  }

  /**
   * A new slot linked to the head of a chain (or to JMPLINK_START) heads a
   * chain one site longer: the walk from it visits the new site, then the
   * old chain.
   */
  lemma ChainExtend(c: seq<byte>, c': seq<byte>, site: nat, t: int)
    requires t == JMPLINK_START || (0 < t < JMPLINK_START && Chain(c, t))
    requires |c| <= site && site + 2 <= |c'| && c'[..|c|] == c
    requires IsInt16(JmpOffset(site, t))
    requires BE16(c'[site], c'[site + 1]) == ToU16(JmpOffset(site, t))
    ensures Chain(c', site)
    ensures Sites(c', site) == [site] + (if t == JMPLINK_START then [] else Sites(c, t))
  {
    if t == JMPLINK_START {
      StoredLinkFollows(c', site, t);
      assert Next(c', site) == 0;
    } else {
      ChainOnto(c, c', site, t);
    }
  }

  lemma ChainOnto(c: seq<byte>, c': seq<byte>, site: nat, t: nat)
    requires 0 < t < JMPLINK_START && Chain(c, t)
    requires |c| <= site && site + 2 <= |c'| && c'[..|c|] == c
    requires IsInt16(t - (site + 2))
    requires BE16(c'[site], c'[site + 1]) == ToU16(t - (site + 2))
    ensures Chain(c', site) && Sites(c', site) == [site] + Sites(c, t)
  {
    LinkBack(c', site, t);
    PrefixOfPrefix(c, c', t + 2);
    ChainPrefix(c, c', t);
    ChainStep(c', site);
  }

  /** A slot holding a backward offset links to its target. */
  lemma LinkBack(code: seq<byte>, site: nat, t: nat)
    requires 0 < t && t + 2 <= site && site + 2 <= |code|
    requires IsInt16(t - (site + 2))
    requires BE16(code[site], code[site + 1]) == ToU16(t - (site + 2))
    ensures Next(code, site) == t
  {
    Int16RoundTrip(t - (site + 2));
  }

  lemma PrefixOfPrefix<T>(c: seq<T>, c': seq<T>, n: nat)
    requires n <= |c| <= |c'| && c'[..|c|] == c
    ensures c'[..n] == c[..n]
  {
    assert c'[..n] == c'[..|c|][..n];
  }

  /** One step of the walk: a slot whose link leads to a chain further back heads a chain. */
  lemma ChainStep(code: seq<byte>, pos: nat)
    requires pos + 2 <= |code| && 0 < Next(code, pos) && Next(code, pos) + 2 <= pos
    requires Chain(code, Next(code, pos))
    ensures Chain(code, pos) && Sites(code, pos) == [pos] + Sites(code, Next(code, pos))
  {
  }

  /**
   * After resolving a chain at dest, following the slot of any of its
   * sites lands exactly on dest, and every byte outside the slots is as
   * before.
   */
  lemma ResolvedChainLandsOnDest(code: seq<byte>, pos: nat, dest: nat)
    requires Chain(code, pos) && pos + 2 <= dest
    requires forall k :: 0 <= k < |Sites(code, pos)| ==> DispatchOffset(Sites(code, pos)[k], dest) <= INT16_MAX
    ensures var sites := Sites(code, pos);
            var r := PatchAll(code, sites, dest);
            (forall k :: 0 <= k < |sites| ==> sites[k] + 2 <= |r| && sites[k] + 2 + Link(r, sites[k]) == dest)
            && (forall i :: 0 <= i < |code| && !InSlot(i, sites) ==> r[i] == code[i])
  {
    var sites := Sites(code, pos);
    SitesSpaced(code, pos);
    var r := PatchAll(code, sites, dest);
    forall k | 0 <= k < |sites|
      ensures sites[k] + 2 <= |r| && sites[k] + 2 + Link(r, sites[k]) == dest
    {
      PatchAllSlot(code, sites, dest, k);
      Int16RoundTrip(DispatchOffset(sites[k], dest));
    }
    forall i | 0 <= i < |code| && !InSlot(i, sites)
      ensures r[i] == code[i]
    {
      PatchAllOutside(code, sites, dest, i);
    }
  }

  /**
   * The same after the code was first cut back to `base` (a peephole
   * rewind): a chain lying wholly below the cut survives it.
   */
  lemma ExtendCutChain(c0: seq<byte>, base: nat, c': seq<byte>, site: nat, t: int)
    requires base <= |c0|
    requires t == JMPLINK_START || (0 < t < JMPLINK_START && Chain(c0, t) && t + 2 <= base)
    requires base <= site && site + 2 <= |c'| && c'[..base] == c0[..base]
    requires IsInt16(JmpOffset(site, t))
    requires BE16(c'[site], c'[site + 1]) == ToU16(JmpOffset(site, t))
    ensures Chain(c', site)
    ensures Sites(c', site) == [site] + (if t == JMPLINK_START then [] else Sites(c0, t))
  {
    var c := c0[..base];
    if t != JMPLINK_START {
      assert c[..t + 2] == c0[..t + 2];
      ChainPrefix(c0, c, t);
    }
    ChainExtend(c, c', site, t);
  }

  /** Where dispatch goes after the slot at p of a chain: the chain's own next site. */
  lemma DispatchNextOnChain(code: seq<byte>, p: nat)
    requires Chain(code, p) && p <= UINT32_MAX
    ensures DispatchNext(code, p) == Next(code, p)
    ensures Next(code, p) == 0 || (0 < Next(code, p) && Next(code, p) + 2 <= p)
  {
    ToU32Small(Next(code, p));
  }

  /** Patching the slot at p leaves the rest of its chain, which lies below it, intact. */
  lemma NextAfterPatch(code: seq<byte>, p: nat, v: u16)
    requires Chain(code, p) && Next(code, p) != 0
    ensures var n := Next(code, p);
            Chain(PutS(code, p, v), n) && Sites(PutS(code, p, v), n) == Sites(code, n)
  {
    var n := Next(code, p);
    var code' := PutS(code, p, v);
    assert code'[..n + 2] == code[..n + 2];
    ChainPrefix(code, code', n);
  }

  /** Some site of the list lies more than INT16_MAX bytes before dest. */
  predicate SomeTooFar(sites: seq<nat>, dest: nat) {
    exists k :: 0 <= k < |sites| && DispatchOffset(sites[k], dest) > INT16_MAX
  }

  /**
   * Resolving a chain fails exactly when one of its sites lies more than
   * INT16_MAX bytes before dest, and otherwise patches every site.
   */
  lemma {:induction false} ResolveChainSpec(code: seq<byte>, p: nat, dest: nat)
    requires Chain(code, p)
    ensures ResolveChain(code, p, dest).Fail? <==> SomeTooFar(Sites(code, p), dest)
    ensures ResolveChain(code, p, dest).Ok? ==> ResolveChain(code, p, dest).value == PatchAll(code, Sites(code, p), dest)
    decreases p
  {
    var sites := Sites(code, p);
    if DispatchOffset(p, dest) > INT16_MAX {
      assert DispatchOffset(sites[0], dest) > INT16_MAX;
    } else {
      var v := ToU16(DispatchOffset(p, dest));
      var code' := PutS(code, p, v);
      var n := Next(code, p);
      if n == 0 {
        assert sites == [p];
      } else {
        NextAfterPatch(code, p, v);
        ResolveChainSpec(code', n, dest);
        var rest := Sites(code', n);
        assert sites == [p] + rest;
        if SomeTooFar(rest, dest) {
          var k :| 0 <= k < |rest| && DispatchOffset(rest[k], dest) > INT16_MAX;
          assert sites[k + 1] == rest[k];
        } else {
          forall k | 0 <= k < |sites| ensures DispatchOffset(sites[k], dest) <= INT16_MAX {
            if k > 0 {
              assert sites[k] == rest[k - 1];
            }
          }
        }
      }
    }
  }
}
