/** The tagged word of a `Key` and the heap of shared status records, as values:
    what each operation does to the counts and to what every key shows. */
module KeyHeap {
  import opened Payloads

  // ------------------------------------------------------------------------
  // The word
  // ------------------------------------------------------------------------

  /** `KeyStatusCode`, an enumeration over a 32-bit int. */
  type Code = c: int | -0x8000_0000 <= c < 0x8000_0000

  const OK: Code := 0
  const INTERNAL: Code := 13
  const WORD := 0x1_0000_0000_0000_0000

  /** The message of a moved-from key. */
  const MOVED_FROM_STRING := "Key accessed after move."

  predicate IsInlined(rep: nat) {
    rep % 2 == 1
  }

  predicate IsMovedFrom(rep: nat) {
    rep / 2 % 2 == 1
  }

  /** `(uintptr_t(code) << 2) + 1` in 64 bits. */
  function CodeToInlinedRep(code: Code): nat {
    code % WORD * 4 % WORD + 1
  }

  /** `(KeyStatusCode)(rep >> 2)`: the low 32 bits, as a signed number. */
  function InlinedRepToCode(rep: nat): Code {
    var low := rep / 4 % 0x1_0000_0000;
    if low >= 0x8000_0000 then low - 0x1_0000_0000 else low
  }

  /** `CodeToInlinedRep(kInternal) | 2`. */
  function MovedFromRep(): nat {
    CodeToInlinedRep(INTERNAL) + 2
  }

  lemma Remainder(x: int, m: nat, q: int, r: nat)
    requires r < m && x == q * m + r
    ensures x % m == r && x / m == q
  {
    var q', r' := x / m, x % m;
    assert x == q' * m + r' && (q - q') * m == r' - r && (q' - q) * m == r - r';
    AtLeast(q - q', m);
    AtLeast(q' - q, m);
  }

  lemma AtLeast(a: int, m: nat)
    ensures a >= 1 ==> a * m >= m
  {
  }

  /** The encoding without its wrap-around. */
  lemma InlinedRepValue(code: Code)
    ensures CodeToInlinedRep(code) == if code >= 0 then 4 * code + 1 else WORD + 4 * code + 1
  {
    if code >= 0 {
      Remainder(code, WORD, 0, code);
      Remainder(code * 4, WORD, 0, code * 4);
    } else {
      Remainder(code, WORD, -1, WORD + code);
      Remainder((WORD + code) * 4, WORD, 3, WORD + 4 * code);
    }
  }

  /** Every 32-bit code survives the encoding, negative ones included. */
  lemma CodeRoundTrip(code: Code)
    ensures IsInlined(CodeToInlinedRep(code)) && !IsMovedFrom(CodeToInlinedRep(code))
    ensures InlinedRepToCode(CodeToInlinedRep(code)) == code
    ensures CodeToInlinedRep(code) < WORD
  {
    InlinedRepValue(code);
    hide CodeToInlinedRep;
    var rep := CodeToInlinedRep(code);
    var quarter := if code >= 0 then code else WORD / 4 + code;
    Remainder(rep, 2, 2 * quarter, 1);
    Remainder(rep, 4, quarter, 1);
    Remainder(2 * quarter, 2, quarter, 0);
    var low := if code >= 0 then code else 0x1_0000_0000 + code;
    Remainder(quarter, 0x1_0000_0000, if code >= 0 then 0 else 0x3fff_ffff, low);
  }

  lemma MovedFromWord(code: Code)
    ensures IsInlined(MovedFromRep()) && IsMovedFrom(MovedFromRep())
    ensures InlinedRepToCode(MovedFromRep()) == INTERNAL
    ensures MovedFromRep() != CodeToInlinedRep(code)
  {
    CodeRoundTrip(code);
    InlinedRepValue(INTERNAL);
    assert MovedFromRep() == 55;
  }

  // ------------------------------------------------------------------------
  // Records and what keys show
  // ------------------------------------------------------------------------

  /** `KeyStatusRep`. */
  datatype Rep = Rep(ref: nat, code: Code, message: string, payloads: seq<Payload>)

  type Reps = map<nat, Rep>

  /** What a key shows to its user. */
  datatype Status = Moved | Live(code: Code, message: string, payloads: map<string, string>)

  /** A record lies at an aligned address, is not OK and has something to say
      that an inlined word could not. */
  ghost predicate RepOk(address: nat, rep: Rep) {
    && address % 4 == 0
    && rep.code != OK
    && (rep.message != "" || rep.payloads != [])
    && Distinct(rep.payloads)
  }

  ghost predicate WordOk(reps: Reps, w: nat) {
    if IsInlined(w) then w == MovedFromRep() || w == CodeToInlinedRep(InlinedRepToCode(w)) else w in reps
  }

  ghost function Content(rep: Rep): Status {
    Live(rep.code, rep.message, AsMap(rep.payloads))
  }

  ghost function View(reps: Reps, w: nat): Status
    requires WordOk(reps, w)
  {
    if w == MovedFromRep() then Moved
    else if IsInlined(w) then Live(InlinedRepToCode(w), "", map[])
    else Content(reps[w])
  }

  ghost function Owners<K>(words: map<K, nat>, a: nat): set<K> {
    set k | k in words && words[k] == a
  }

  /** The heap invariant: each record's count is the number of keys pointing to
      it, there is at least one, and no key dangles. */
  ghost predicate Ok<K>(reps: Reps, words: map<K, nat>) {
    && (forall a :: a in reps ==> RepOk(a, reps[a]) && 0 < reps[a].ref == |Owners(words, a)|)
    && (forall k :: k in words ==> WordOk(reps, words[k]))
  }

  /** Without keys there are no records: nothing leaks. */
  lemma NoKeysNoRecords<K>(reps: Reps, words: map<K, nat>)
    requires Ok(reps, words) && words == map[]
    ensures reps == map[]
  {
    forall a ensures a !in reps {
      assert Owners(words, a) == {};
    }
  }

  // ------------------------------------------------------------------------
  // Counting owners
  // ------------------------------------------------------------------------

  lemma OwnersPut<K>(words: map<K, nat>, k: K, w: nat, a: nat)
    requires k !in words
    ensures |Owners(words[k := w], a)| == |Owners(words, a)| + (if a == w then 1 else 0)
  {
    assert Owners(words[k := w], a) == if a == w then Owners(words, a) + {k} else Owners(words, a);
  }

  lemma OwnersDrop<K>(words: map<K, nat>, k: K, a: nat)
    requires k in words
    ensures |Owners(words - {k}, a)| == |Owners(words, a)| - (if a == words[k] then 1 else 0)
  {
    assert Owners(words - {k}, a) == Owners(words, a) - {k};
  }

  lemma OwnersMove<K>(words: map<K, nat>, k: K, w: nat, a: nat)
    requires k in words
    ensures |Owners(words[k := w], a)|
         == |Owners(words, a)| - (if a == words[k] then 1 else 0) + (if a == w then 1 else 0)
  {
    OwnersDrop(words, k, a);
    OwnersPut(words - {k}, k, w, a);
    assert (words - {k})[k := w] == words[k := w];
  }

  // ------------------------------------------------------------------------
  // Reference counts
  // ------------------------------------------------------------------------

  /** The effect of `Ref`. */
  function Reffed(reps: Reps, w: nat): Reps
    requires IsInlined(w) || w in reps
  {
    if IsInlined(w) then reps else reps[w := reps[w].(ref := reps[w].ref + 1)]
  }

  /** The effect of `Unref`, which frees the record with its last reference. */
  function Unreffed(reps: Reps, w: nat): Reps
    requires IsInlined(w) || (w in reps && reps[w].ref > 0)
  {
    if IsInlined(w) then reps
    else if reps[w].ref == 1 then reps - {w}
    else reps[w := reps[w].(ref := reps[w].ref - 1)]
  }

  /** What all keys show: the meaning of the heap. */
  ghost function Shown<K>(reps: Reps, words: map<K, nat>): (m: map<K, Status>)
    requires Ok(reps, words)
    ensures m.Keys == words.Keys
  {
    map k | k in words :: View(reps, words[k])
  }

  lemma CopyIn<K>(reps: Reps, words: map<K, nat>, k: K, w: nat)
    requires Ok(reps, words) && k !in words && WordOk(reps, w)
    ensures Ok(Reffed(reps, w), words[k := w])
    ensures Shown(Reffed(reps, w), words[k := w]) == Shown(reps, words)[k := View(reps, w)]
  {
    hide CodeToInlinedRep, InlinedRepToCode, MovedFromRep, AsMap, Owners;
    forall a | a in reps ensures |Owners(words[k := w], a)| == |Owners(words, a)| + (if a == w then 1 else 0) {
      OwnersPut(words, k, w, a);
    }
  }

  /** If the record of `k` has one reference, `k` is its only owner. */
  lemma LastOwner<K>(reps: Reps, words: map<K, nat>, k: K, j: K)
    requires Ok(reps, words) && k in words && j in words && words[j] == words[k]
    ensures words[k] in reps && reps[words[k]].ref == 1 ==> j == k
  {
    if j != k && words[k] in reps {
      assert {j, k} <= Owners(words, words[k]);
      SubsetCard({j, k}, Owners(words, words[k]));
    }
  }

  lemma SubsetCard<K>(a: set<K>, b: set<K>)
    requires a <= b
    ensures |a| <= |b|
    decreases a
  {
    if a != {} {
      var x :| x in a;
      SubsetCard(a - {x}, b - {x});
    }
  }

  lemma ReleaseOk<K>(reps: Reps, words: map<K, nat>, k: K)
    requires Ok(reps, words) && k in words
    ensures IsInlined(words[k]) || (words[k] in reps && reps[words[k]].ref > 0)
    ensures Ok(Unreffed(reps, words[k]), words - {k})
  {
    hide CodeToInlinedRep, InlinedRepToCode, MovedFromRep, AsMap, Owners, Distinct;
    forall a | a in reps ensures |Owners(words - {k}, a)| == |Owners(words, a)| - (if a == words[k] then 1 else 0) {
      OwnersDrop(words, k, a);
    }
    forall j | j in words && j != k && words[j] == words[k]
      ensures !IsInlined(words[k]) ==> reps[words[k]].ref != 1
    {
      LastOwner(reps, words, k, j);
    }
  }

  /** Whatever else a record is known for does not depend on its count. */
  lemma UnrefKeepsViews(reps: Reps, v: nat, w: nat)
    requires IsInlined(v) || (v in reps && reps[v].ref > 0)
    requires WordOk(reps, w) && WordOk(Unreffed(reps, v), w)
    ensures View(Unreffed(reps, v), w) == View(reps, w)
  {
    hide CodeToInlinedRep, InlinedRepToCode, MovedFromRep, AsMap;
  }

  /** Dropping a key's reference frees the record exactly when it was the last. */
  lemma Release<K>(reps: Reps, words: map<K, nat>, k: K)
    requires Ok(reps, words) && k in words
    ensures IsInlined(words[k]) || (words[k] in reps && reps[words[k]].ref > 0)
    ensures var reps', words' := Unreffed(reps, words[k]), words - {k};
      && Ok(reps', words')
      && Shown(reps', words') == Shown(reps, words) - {k}
      && (forall w :: w != words[k] && WordOk(reps, w) ==> WordOk(reps', w) && View(reps', w) == View(reps, w))
  {
    hide CodeToInlinedRep, InlinedRepToCode, MovedFromRep, AsMap, Owners, RepOk, View;
    ReleaseOk(reps, words, k);
    var reps', words' := Unreffed(reps, words[k]), words - {k};
    forall j | j in words' ensures View(reps', words'[j]) == View(reps, words[j]) {
      UnrefKeepsViews(reps, words[k], words[j]);
    }
    forall w | w != words[k] && WordOk(reps, w) ensures WordOk(reps', w) && View(reps', w) == View(reps, w) {
      UnrefKeepsViews(reps, words[k], w);
    }
  }

  /** References to different records commute. */
  lemma RefsCommute(reps: Reps, w: nat, v: nat)
    requires w != v && (IsInlined(w) || w in reps) && (IsInlined(v) || (v in reps && reps[v].ref > 0))
    ensures Unreffed(Reffed(reps, w), v) == Reffed(Unreffed(reps, v), w)
  {
  }

  lemma Assign<K>(reps: Reps, words: map<K, nat>, k: K, w: nat)
    requires Ok(reps, words) && k in words && WordOk(reps, w) && words[k] != w
    requires IsInlined(w) || w in reps
    requires IsInlined(words[k]) || (words[k] in reps && reps[words[k]].ref > 0)
    ensures var reps' := Unreffed(Reffed(reps, w), words[k]);
      Ok(reps', words[k := w]) && Shown(reps', words[k := w]) == Shown(reps, words)[k := View(reps, w)]
  {
    hide View, Ok, WordOk, Reffed, Unreffed, IsInlined, Shown;
    RefsCommute(reps, w, words[k]);
    Release(reps, words, k);
    CopyIn(Unreffed(reps, words[k]), words - {k}, k, w);
    assert (words - {k})[k := w] == words[k := w];
  }

  /** Moving into a new key: the source keeps only the moved-from word. */
  lemma MoveIn<K>(reps: Reps, words: map<K, nat>, k: K, x: K)
    requires Ok(reps, words) && k !in words && x in words
    ensures var words' := words[k := words[x]][x := MovedFromRep()];
      && Ok(reps, words')
      && Shown(reps, words') == Shown(reps, words)[k := View(reps, words[x])][x := Moved]
  {
    MovedFromWord(OK);
    hide CodeToInlinedRep, InlinedRepToCode, MovedFromRep, AsMap, Owners, Distinct;
    var mid := words[k := words[x]];
    forall a | a in reps ensures |Owners(mid[x := MovedFromRep()], a)| == |Owners(words, a)| {
      assert RepOk(a, reps[a]);
      OwnersPut(words, k, words[x], a);
      OwnersMove(mid, x, MovedFromRep(), a);
    }
  }

  lemma Swap<K>(reps: Reps, words: map<K, nat>, a: K, b: K)
    requires Ok(reps, words) && a in words && b in words
    ensures var words' := words[a := words[b]][b := words[a]];
      && Ok(reps, words')
      && Shown(reps, words') == Shown(reps, words)[a := View(reps, words[b])][b := View(reps, words[a])]
  {
    hide CodeToInlinedRep, InlinedRepToCode, MovedFromRep, AsMap, Owners, RepOk;
    var mid := words[a := words[b]];
    forall w | w in reps ensures |Owners(mid[b := words[a]], w)| == |Owners(words, w)| {
      OwnersMove(words, a, words[b], w);
      OwnersMove(mid, b, words[a], w);
    }
  }

  lemma OwnOk<K>(reps: Reps, words: map<K, nat>, k: K, a: nat, rep: Rep)
    requires Ok(reps, words) && k !in words && a !in reps && RepOk(a, rep) && rep.ref == 1
    ensures Ok(reps[a := rep], words[k := a])
  {
    hide CodeToInlinedRep, InlinedRepToCode, MovedFromRep, AsMap, Distinct;
    assert Owners(words, a) == {};
    forall b | b in reps || b == a
      ensures |Owners(words[k := a], b)| == |Owners(words, b)| + (if b == a then 1 else 0)
    {
      OwnersPut(words, k, a, b);
    }
  }

  /** A new record with one owner. */
  lemma Own<K>(reps: Reps, words: map<K, nat>, k: K, a: nat, rep: Rep)
    requires Ok(reps, words) && k !in words && a !in reps && RepOk(a, rep) && rep.ref == 1
    ensures Ok(reps[a := rep], words[k := a])
    ensures Shown(reps[a := rep], words[k := a]) == Shown(reps, words)[k := Content(rep)]
  {
    hide CodeToInlinedRep, InlinedRepToCode, MovedFromRep, AsMap, Distinct, Owners;
    MovedFromWord(OK);
    OwnOk(reps, words, k, a, rep);
    forall j | j in words ensures View(reps[a := rep], words[j]) == View(reps, words[j]) {
      assert IsInlined(words[j]) || words[j] in reps;
    }
    assert View(reps[a := rep], a) == Content(rep);
  }

  /** A key exchanges its word for a record of its own: a new one, or its old
      one if nobody shared it. */
  lemma Replace<K>(reps: Reps, words: map<K, nat>, k: K, a: nat, rep: Rep)
    requires Ok(reps, words) && k in words && RepOk(a, rep) && rep.ref == 1
    requires IsInlined(words[k]) || (words[k] in reps && reps[words[k]].ref > 0)
    requires a !in Unreffed(reps, words[k])
    ensures var reps' := Unreffed(reps, words[k])[a := rep];
      Ok(reps', words[k := a]) && Shown(reps', words[k := a]) == Shown(reps, words)[k := Content(rep)]
  {
    hide View, Ok, WordOk, Unreffed, IsInlined, RepOk, Content, Shown;
    Release(reps, words, k);
    Own(Unreffed(reps, words[k]), words - {k}, k, a, rep);
    assert (words - {k})[k := a] == words[k := a];
  }

  /** A code by itself needs no record. */
  lemma InlinedWord(reps: Reps, code: Code)
    ensures var w := CodeToInlinedRep(code);
      && IsInlined(w)
      && WordOk(reps, w)
      && View(reps, w) == Live(code, "", map[])
      && Reffed(reps, w) == reps
  {
    CodeRoundTrip(code);
    MovedFromWord(code);
    hide CodeToInlinedRep, InlinedRepToCode, MovedFromRep;
  }

  lemma MessageRecord(a: nat, rep: Rep)
    requires a % 4 == 0 && rep.code != OK && rep.message != "" && rep.payloads == []
    ensures RepOk(a, rep) && Content(rep) == Live(rep.code, rep.message, map[])
  {
  }

  /** Moving onto a key: its own reference is dropped, the source's is handed over. */
  lemma MoveOver<K>(reps: Reps, words: map<K, nat>, k: K, x: K)
    requires Ok(reps, words) && k in words && x in words && words[k] != words[x]
    requires IsInlined(words[k]) || (words[k] in reps && reps[words[k]].ref > 0)
    ensures var reps', words' := Unreffed(reps, words[k]), words[k := words[x]][x := MovedFromRep()];
      && Ok(reps', words')
      && Shown(reps', words') == Shown(reps, words)[k := View(reps, words[x])][x := Moved]
  {
    hide View, Ok, WordOk, Unreffed, IsInlined, MovedFromRep;
    Release(reps, words, k);
    MoveIn(Unreffed(reps, words[k]), words - {k}, k, x);
    WordOfKey(reps, words, x);
    assert (words - {k})[k := words[x]] == words[k := words[x]];
  }

  lemma WordOfKey<K>(reps: Reps, words: map<K, nat>, k: K)
    requires Ok(reps, words) && k in words
    ensures WordOk(reps, words[k])
  {
  }

  /** Only the inlined OK word shows an OK status: every record is an error. */
  lemma OkWord<K>(reps: Reps, words: map<K, nat>, k: K)
    requires Ok(reps, words) && k in words
    ensures WordOk(reps, words[k])
    ensures words[k] == CodeToInlinedRep(OK) <==> View(reps, words[k]).Live? && View(reps, words[k]).code == OK
  {
    hide AsMap;
    CodeRoundTrip(OK);
    MovedFromWord(OK);
    assert WordOk(reps, words[k]);
    hide CodeToInlinedRep, InlinedRepToCode, MovedFromRep;
  }
}
