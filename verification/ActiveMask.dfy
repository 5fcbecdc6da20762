/** Packing a set of supernode ids into active-flag words (src/cppEmitterUtil.cpp,
    activeSet2bitMap and updateActiveStr). A flag word has 8 bits; one store covers at most
    8 words. A mask is the set of its bit positions. */
module ActiveMask {

  type Mask = set<nat>
  type Words = map<nat, Mask>

  /** Bit `id` is set by some entry: an entry at word w covers bits from w * 8 on. */
  ghost predicate Sets(words: Words, id: nat) {
    exists w :: w in words && Covers(w, words[w], id)
  }

  ghost predicate Covers(w: nat, mask: Mask, id: nat) {
    id >= w * 8 && id - w * 8 in mask
  }

  /** Entries are one word wide, or start a group of eight words and stay inside it; no two
      entries share a group. */
  ghost predicate EntryOk(w: nat, mask: Mask) {
    mask != {} && forall p :: p in mask ==> p < (if w % 8 == 0 then 64 else 8)
  }

  ghost predicate PackOk(words: Words) {
    && (forall w :: w in words ==> EntryOk(w, words[w]))
    && (forall v, w :: v in words && w in words && v / 8 == w / 8 ==> v == w)
  }

  /** Goes to the flag copy of the word that is being scanned. */
  ghost predicate Near(id: nat, cur: int) {
    cur >= 0 && id > cur && id / 8 == cur / 8
  }

  function Shift(mask: Mask, n: nat): (r: Mask)
    ensures forall p :: p in r <==> p >= n && p - n in mask
  {
    set p | p in mask :: p + n
  }

  ghost predicate FromGroup(words: Words, beg: nat, end: nat, id: nat) {
    exists w :: w in words && beg <= w < end && Covers(w, words[w], id)
  }

  lemma GroupGrows(words: Words, beg: nat, w: nat, id: nat)
    requires beg <= w
    ensures FromGroup(words, beg, w + 1, id) <==>
              FromGroup(words, beg, w, id) || (w in words && Covers(w, words[w], id))
  {
    if FromGroup(words, beg, w, id) {
      var v: nat :| v in words && beg <= v < w && Covers(v, words[v], id);
    }
  }

  /** What an entry adds, seen from the start of its group. */
  method TakeEntry(words: Words, beg: nat, w: nat, ghost mask: Mask, all0: Mask) returns (all: Mask)
    requires beg % 8 == 0 && beg <= w < beg + 8 && w in words && EntryOk(w, words[w])
    requires forall p: nat :: p in all0 <==> p in mask || FromGroup(words, beg, w, beg * 8 + p)
    requires all0 != {} && forall p :: p in all0 ==> p < 64
    ensures forall p: nat :: p in all <==> p in mask || FromGroup(words, beg, w + 1, beg * 8 + p)
    ensures all != {} && forall p :: p in all ==> p < 64
  {
    var shifted := Shift(words[w], (w - beg) * 8);
    all := all0 + shifted;
    forall p: nat ensures p in all <==> p in mask || FromGroup(words, beg, w + 1, beg * 8 + p) {
      assert p in shifted <==> Covers(w, words[w], beg * 8 + p);
      GroupGrows(words, beg, w, beg * 8 + p);
    }
  }

  /** Merges the entries of words beg .. beg + 7 into one mask, and drops them. */
  method Gather(words: Words, beg: nat, mask: Mask) returns (rest: Words, all: Mask, found: bool)
    requires beg % 8 == 0 && PackOk(words)
    requires mask != {} && forall p :: p in mask ==> p < 64
    ensures forall w :: w in rest <==> w in words && !(beg <= w < beg + 8)
    ensures forall w :: w in rest ==> rest[w] == words[w]
    ensures found <==> exists w :: w in words && beg <= w < beg + 8
    ensures all != {} && forall p :: p in all ==> p < 64
    ensures forall p: nat :: p in all <==> p in mask || FromGroup(words, beg, beg + 8, beg * 8 + p)
  {
    rest, all, found := words, mask, false;
    var w := beg;
    while w < beg + 8
      invariant beg <= w <= beg + 8
      invariant forall v :: v in rest <==> v in words && !(beg <= v < w)
      invariant forall v :: v in rest ==> rest[v] == words[v]
      invariant found <==> exists v :: v in words && beg <= v < w
      invariant all != {} && forall p :: p in all ==> p < 64
      invariant forall p: nat :: p in all <==> p in mask || FromGroup(words, beg, w, beg * 8 + p)
    {
      if w in rest {
        assert EntryOk(w, words[w]);
        all := TakeEntry(words, beg, w, mask, all);
        rest := map v | v in rest && v != w :: rest[v];
        found := true;
      } else {
        forall p: nat ensures p in all <==> p in mask || FromGroup(words, beg, w + 1, beg * 8 + p) {
          GroupGrows(words, beg, w, beg * 8 + p);
        }
      }
      w := w + 1;
    }
  }

  /** One id enters the map. */
  method AddId(words: Words, id: nat) returns (r: Words)
    requires PackOk(words)
    ensures PackOk(r)
    ensures forall x :: Sets(r, x) <==> Sets(words, x) || x == id
  {
    var w, bit := id / 8, id % 8;
    if w in words {
      assert EntryOk(w, words[w]);
      r := words[w := words[w] + {bit}];
      AddedBit(words, w, bit, r);
    } else {
      var beg := w - w % 8;
      var rest, all, found := Gather(words, beg, {bit + (w - beg) * 8});
      if found {
        r := rest[beg := all];
        Regrouped(words, rest, beg, all, id, r);
      } else {
        r := words[w := {bit}];
        assert words[w := {bit}] == r;
        NewEntry(words, w, bit, r);
      }
    }
  }

  lemma AddedBit(words: Words, w: nat, bit: nat, r: Words)
    requires PackOk(words) && w in words && bit < 8 && r == words[w := words[w] + {bit}]
    ensures PackOk(r) && forall x :: Sets(r, x) <==> Sets(words, x) || x == w * 8 + bit
  {
    assert EntryOk(w, words[w]);
    forall x: nat ensures Sets(r, x) <==> Sets(words, x) || x == w * 8 + bit {
      if Sets(words, x) {
        var v: nat :| v in words && Covers(v, words[v], x);
        assert Covers(v, r[v], x);
      }
      if x == w * 8 + bit {
        assert Covers(w, r[w], x);
      }
    }
  }

  lemma NewEntry(words: Words, w: nat, bit: nat, r: Words)
    requires PackOk(words) && bit < 8 && r == words[w := {bit}]
    requires forall v :: v in words ==> v / 8 != w / 8
    ensures PackOk(r) && forall x :: Sets(r, x) <==> Sets(words, x) || x == w * 8 + bit
  {
    forall x: nat ensures Sets(r, x) <==> Sets(words, x) || x == w * 8 + bit {
      if Sets(words, x) {
        var v: nat :| v in words && Covers(v, words[v], x);
        assert Covers(v, r[v], x);
      }
      if x == w * 8 + bit {
        assert Covers(w, r[w], x);
      }
    }
  }

  lemma Regrouped(words: Words, rest: Words, beg: nat, all: Mask, id: nat, r: Words)
    requires PackOk(words) && beg % 8 == 0 && id >= beg * 8 && r == rest[beg := all]
    requires forall w :: w in rest <==> w in words && !(beg <= w < beg + 8)
    requires forall w :: w in rest ==> rest[w] == words[w]
    requires all != {} && forall p :: p in all ==> p < 64
    requires forall p: nat :: p in all <==> p == id - beg * 8 || FromGroup(words, beg, beg + 8, beg * 8 + p)
    ensures PackOk(r) && forall x :: Sets(r, x) <==> Sets(words, x) || x == id
  {
    RegroupedOk(words, rest, beg, all, r);
    forall x: nat ensures Sets(r, x) <==> Sets(words, x) || x == id {
      if Sets(words, x) || x == id {
        StillSet(words, rest, beg, all, id, r, x);
      }
      if Sets(r, x) {
        NothingNew(words, rest, beg, all, id, r, x);
      }
    }
  }

  lemma NothingNew(words: Words, rest: Words, beg: nat, all: Mask, id: nat, r: Words, x: nat)
    requires id >= beg * 8 && r == rest[beg := all]
    requires forall w :: w in rest ==> w in words && rest[w] == words[w]
    requires forall p: nat :: p in all <==> p == id - beg * 8 || FromGroup(words, beg, beg + 8, beg * 8 + p)
    requires Sets(r, x)
    ensures Sets(words, x) || x == id
  {
    var w: nat :| w in r && Covers(w, r[w], x);
    if w != beg {
      assert Covers(w, words[w], x);
    } else {
      var p: nat := x - beg * 8;
      assert p in all && beg * 8 + p == x;
    }
  }

  lemma RegroupedOk(words: Words, rest: Words, beg: nat, all: Mask, r: Words)
    requires PackOk(words) && beg % 8 == 0 && r == rest[beg := all]
    requires forall w :: w in rest <==> w in words && !(beg <= w < beg + 8)
    requires forall w :: w in rest ==> rest[w] == words[w]
    requires all != {} && forall p :: p in all ==> p < 64
    ensures PackOk(r)
  {
    forall w | w in r ensures EntryOk(w, r[w]) {
      if w != beg {
        assert EntryOk(w, words[w]);
      }
    }
    forall v, w | v in r && w in r && v / 8 == w / 8 ensures v == w {
      if v != beg && w != beg {
        assert v in words && w in words;
      }
    }
  }

  lemma StillSet(words: Words, rest: Words, beg: nat, all: Mask, id: nat, r: Words, x: nat)
    requires beg % 8 == 0 && id >= beg * 8 && r == rest[beg := all]
    requires forall w :: w in rest <==> w in words && !(beg <= w < beg + 8)
    requires forall w :: w in rest ==> rest[w] == words[w]
    requires forall p: nat :: p in all <==> p == id - beg * 8 || FromGroup(words, beg, beg + 8, beg * 8 + p)
    requires Sets(words, x) || x == id
    ensures Sets(r, x)
  {
    if x == id {
      assert Covers(beg, r[beg], x);
    } else {
      var w: nat :| w in words && Covers(w, words[w], x);
      if beg <= w < beg + 8 {
        var p: nat := x - beg * 8;
        assert FromGroup(words, beg, beg + 8, beg * 8 + p);
        assert Covers(beg, r[beg], x);
      } else {
        assert Covers(w, r[w], x);
      }
    }
  }

  /** activeSet2bitMap: ids that are always active are left out, later ids of the current
      word go to its flag copy, all others to the map. */
  method Pack(ids: seq<nat>, always: set<nat>, cur: int) returns (near: Mask, words: Words)
    ensures PackOk(words)
    ensures forall id :: Sets(words, id) <==> id in ids && id !in always && !Near(id, cur)
    ensures forall p :: p in near <==> exists id :: id in ids && id !in always && Near(id, cur) && id % 8 == p
  {
    near, words := {}, map[];
    var i := 0;
    while i < |ids|
      invariant 0 <= i <= |ids| && PackOk(words)
      invariant forall id :: Sets(words, id) <==> id in ids[..i] && id !in always && !Near(id, cur)
      invariant forall p :: p in near <==> exists id :: id in ids[..i] && id !in always && Near(id, cur) && id % 8 == p
    {
      var id := ids[i];
      assert ids[..i + 1] == ids[..i] + [id];
      if id !in always {
        if cur >= 0 && id > cur && id / 8 == cur / 8 {
          near := near + {id % 8};
        } else {
          words := AddId(words, id);
        }
      }
      i := i + 1;
    }
    assert ids[..i] == ids;
  }
}
