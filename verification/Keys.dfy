/** `Key` objects over a heap of reference-counted, copy-on-write records. */
module Keys {
  import opened Payloads
  import opened KeyHeap
  import opened Addresses

  /** The records in memory, and the keys alive. */
  class Heap {
    var reps: Reps
    ghost var keys: set<Key>

    ghost function Words(): map<Key, nat>
      reads this, keys
    {
      map k | k in keys :: k.rep
    }

    ghost predicate Valid()
      reads this, keys
    {
      Ok(reps, Words())
    }

    /** What every live key shows. */
    ghost function Shows(): map<Key, Status>
      requires Valid()
      reads this, keys
    {
      Shown(reps, Words())
    }

    constructor ()
      ensures Valid() && reps == map[] && keys == {}
    {
      reps, keys := map[], {};
    }

    /** `new KeyStatusRep`: any free aligned address. */
    method New(rep: Rep) returns (a: nat)
      modifies this`reps
      ensures a !in old(reps) && a % 4 == 0 && reps == old(reps)[a := rep]
    {
      ghost var free := 4 * AboveAll(reps.Keys);
      assert free % 4 == 0 && free !in reps;
      a :| a % 4 == 0 && a !in reps;
      reps := reps[a := rep];
    }

    method Ref(w: nat)
      requires IsInlined(w) || w in reps
      modifies this`reps
      ensures reps == Reffed(old(reps), w)
    {
      if !IsInlined(w) {
        reps := reps[w := reps[w].(ref := reps[w].ref + 1)];
      }
    }

    method Unref(w: nat)
      requires IsInlined(w) || (w in reps && reps[w].ref > 0)
      modifies this`reps
      ensures reps == Unreffed(old(reps), w)
    {
      if !IsInlined(w) {
        if reps[w].ref == 1 || reps[w].ref - 1 == 0 {
          reps := reps - {w};
        } else {
          reps := reps[w := reps[w].(ref := reps[w].ref - 1)];
        }
      }
    }

    /** A record with the same content and one reference: `w` itself if nobody
        else refers to it, or else a copy. */
    method CloneAndUnref(w: nat) returns (a: nat)
      requires !IsInlined(w) && w in reps && reps[w].ref > 0
      modifies this`reps
      ensures a !in Unreffed(old(reps), w) && (a % 4 == 0 || a == w)
      ensures reps == Unreffed(old(reps), w)[a := old(reps)[w].(ref := 1)]
    {
      if reps[w].ref == 1 {
        a := w;
        assert reps == (reps - {w})[w := reps[w]];
      } else {
        a := New(reps[w].(ref := 1));
        Unref(w);
      }
    }
  }

  class Key {
    var rep: nat

    /** `Key(code, msg)`: an OK code ignores the message. */
    constructor (h: Heap, code: Code, msg: string)
      requires h.Valid()
      modifies h
      ensures h.Valid() && h.keys == old(h.keys) + {this}
      ensures h.Shows() == old(h.Shows())[this := Live(code, if code == OK then "" else msg, map[])]
    {
      hide Ok, View, WordOk, RepOk, Reffed, Content, CodeToInlinedRep, InlinedRepToCode, MovedFromRep, IsInlined, Shown;
      rep := CodeToInlinedRep(code);
      new;
      ghost var words := h.Words();
      if code != OK && msg != "" {
        var r := Rep(1, code, msg, []);
        ghost var reps := h.reps;
        rep := h.New(r);
        MessageRecord(rep, r);
        Own(reps, words, this, rep, r);
      } else {
        InlinedWord(h.reps, code);
        CopyIn(h.reps, words, this, rep);
      }
      h.keys := h.keys + {this};
      assert h.Words() == words[this := rep];
    }

    constructor Copy(h: Heap, x: Key)
      requires h.Valid() && x in h.keys
      modifies h
      ensures h.Valid() && h.keys == old(h.keys) + {this}
      ensures h.Shows() == old(h.Shows())[this := old(h.Shows())[x]]
    {
      hide Ok, View, WordOk, Reffed, IsInlined, Shown;
      rep := x.rep;
      new;
      ghost var reps, words := h.reps, h.Words();
      KeyWord(reps, words, x);
      h.Ref(rep);
      CopyIn(reps, words, this, rep);
      h.keys := h.keys + {this};
      assert h.Words() == words[this := rep];
    }

    constructor Move(h: Heap, x: Key)
      requires h.Valid() && x in h.keys
      modifies h, x
      ensures h.Valid() && h.keys == old(h.keys) + {this}
      ensures h.Shows() == old(h.Shows())[this := old(h.Shows())[x]][x := Moved]
    {
      hide Ok, View, WordOk, IsInlined, Shown, MovedFromRep;
      rep := x.rep;
      new;
      ghost var words := h.Words();
      KeyWord(h.reps, words, x);
      MoveIn(h.reps, words, this, x);
      x.rep := MovedFromRep();
      h.keys := h.keys + {this};
      ghost var words1: map<Key, nat> := words[this := rep];
      assert h.Words() == words1[x := MovedFromRep()];
    }

    /** `operator=(const Key&)`. */
    method Assign(h: Heap, x: Key)
      requires h.Valid() && this in h.keys && x in h.keys
      modifies h`reps, this
      ensures h.Valid()
      ensures h.Shows() == old(h.Shows())[this := old(h.Shows())[x]]
    {
      hide Ok, View, WordOk, Reffed, Unreffed, IsInlined, Shown;
      ghost var reps, words := h.reps, h.Words();
      KeyWord(reps, words, x);
      KeyWord(reps, words, this);
      var oldRep := rep;
      if x.rep != oldRep {
        KeyHeap.Assign(reps, words, this, x.rep);
        RefKeepsOther(reps, x.rep, oldRep);
        h.Ref(x.rep);
        rep := x.rep;
        h.Unref(oldRep);
        assert h.Words() == words[this := rep];
      } else {
        assert h.Words() == words;
        assert h.Shows()[this := h.Shows()[x]] == h.Shows();
      }
    }

    /** `operator=(Key&&)`: a source that shares this key's word keeps it. */
    method AssignMove(h: Heap, x: Key)
      requires h.Valid() && this in h.keys && x in h.keys
      modifies h`reps, this, x
      ensures h.Valid()
      ensures h.Shows() ==
        if old(x.rep) == old(rep) then old(h.Shows())
        else old(h.Shows())[this := old(h.Shows())[x]][x := Moved]
    {
      hide Ok, View, WordOk, Unreffed, IsInlined, Shown, MovedFromRep;
      ghost var reps, words := h.reps, h.Words();
      KeyWord(reps, words, x);
      KeyWord(reps, words, this);
      var oldRep := rep;
      if x.rep != oldRep {
        MoveOver(reps, words, this, x);
        rep := x.rep;
        x.rep := MovedFromRep();
        h.Unref(oldRep);
        ghost var words1: map<Key, nat> := words[this := rep];
        assert h.Words() == words1[x := MovedFromRep()];
      } else {
        assert h.Words() == words;
      }
    }

    /** `~Key`. */
    method Destroy(h: Heap)
      requires h.Valid() && this in h.keys
      modifies h
      ensures h.Valid() && h.keys == old(h.keys) - {this}
      ensures h.Shows() == old(h.Shows()) - {this}
    {
      hide Ok, View, WordOk, Unreffed, IsInlined, Shown;
      ghost var words := h.Words();
      Release(h.reps, words, this);
      h.Unref(rep);
      h.keys := h.keys - {this};
      assert h.Words() == words - {this};
    }

    /** `swap`. */
    method SwapWith(h: Heap, x: Key)
      requires h.Valid() && this in h.keys && x in h.keys
      modifies this, x
      ensures h.Valid()
      ensures h.Shows() == old(h.Shows())[this := old(h.Shows())[x]][x := old(h.Shows())[this]]
    {
      hide Ok, View, WordOk, IsInlined, Shown;
      ghost var words := h.Words();
      KeyWord(h.reps, words, x);
      KeyWord(h.reps, words, this);
      Swap(h.reps, words, this, x);
      ghost var words1: map<Key, nat> := words[this := x.rep];
      ghost var words2: map<Key, nat> := words1[x := rep];
      rep, x.rep := x.rep, rep;
      assert h.Words() == words2;
    }

    /** `ok()`: decided by the word alone. */
    method IsOk(h: Heap) returns (ok: bool)
      requires h.Valid() && this in h.keys
      ensures ok <==> IsOkStatus(h.Shows()[this])
      ensures ok <==> rep == CodeToInlinedRep(OK)
    {
      hide Ok, View, WordOk, IsInlined, Shown;
      KeyWord(h.reps, h.Words(), this);
      OkWord(h.reps, h.Words(), this);
      ok := rep == CodeToInlinedRep(OK);
    }

    /** `Update(const Key&)`. */
    method Update(h: Heap, x: Key)
      requires h.Valid() && this in h.keys && x in h.keys
      modifies h`reps, this
      ensures h.Valid()
      ensures h.Shows() ==
        if IsOkStatus(old(h.Shows())[this]) then old(h.Shows())[this := old(h.Shows())[x]] else old(h.Shows())
    {
      hide Shown;
      var ok := IsOk(h);
      if ok {
        Assign(h, x);
      }
    }

    /** `Update(Key&&)`: the argument is moved from only if it was not OK and
        replaced an OK status. */
    method UpdateMove(h: Heap, x: Key)
      requires h.Valid() && this in h.keys && x in h.keys
      modifies h`reps, this, x
      ensures h.Valid()
      ensures h.Shows() ==
        if IsOkStatus(old(h.Shows())[this]) && !IsOkStatus(old(h.Shows())[x])
        then old(h.Shows())[this := old(h.Shows())[x]][x := Moved]
        else old(h.Shows())
    {
      hide Ok, View, WordOk, IsInlined, Shown;
      KeyWord(h.reps, h.Words(), x);
      OkWord(h.reps, h.Words(), x);
      var ok := IsOk(h);
      if ok {
        AssignMove(h, x);
      }
    }

    /** `PrepareToModify`: a record of this key's own, with the content its word
        had; the key itself is not changed yet. */
    method PrepareToModify(h: Heap) returns (a: nat)
      requires h.Valid() && this in h.keys
      modifies h`reps
      ensures IsInlined(rep) || (rep in old(h.reps) && old(h.reps)[rep].ref > 0)
      ensures a % 4 == 0 && a !in Unreffed(old(h.reps), rep)
      ensures h.reps == Unreffed(old(h.reps), rep)[a := OwnCopy(old(h.reps), rep)]
      ensures var before := old(h.Shows())[this];
        && h.reps[a].ref == 1 && h.reps[a].code == ObservedCode(before)
        && h.reps[a].message == (if before.Moved? then "" else before.message)
        && AsMap(h.reps[a].payloads) == ObservedPayloads(before)
    {
      CopyShows(h.reps, h.Words(), this);
      ghost var words := h.Words();
      KeyWord(h.reps, words, this);
      if IsInlined(rep) {
        a := h.New(Rep(1, InlinedRepToCode(rep), "", []));
      } else {
        AlignedAddress(h.reps, words, this);
        a := h.CloneAndUnref(rep);
      }
    }

    /** `SetPayload`: does nothing to an OK key. */
    method SetPayload(h: Heap, url: string, data: string)
      requires h.Valid() && this in h.keys
      modifies h`reps, this
      ensures h.Valid()
      ensures var before := old(h.Shows())[this];
        h.Shows() == if IsOkStatus(before) then old(h.Shows()) else old(h.Shows())[this := WithPayload(before, url, data)]
    {
      hide Ok, View, WordOk, Unreffed, IsInlined, Shown, Content, RepOk, Set, AsMap, OwnCopy, WithPayload;
      var ok := IsOk(h);
      if ok {
        return;
      }
      ghost var reps, words := h.reps, h.Words();
      KeyWord(reps, words, this);
      var a := PrepareToModify(h);
      var r := h.reps[a].(payloads := Set(h.reps[a].payloads, url, data));
      PayloadRecord(reps, words, this, a, url, data);
      Replace(reps, words, this, a, r);
      assert Unreffed(reps, rep)[a := h.reps[a]][a := r] == Unreffed(reps, rep)[a := r];
      h.reps := h.reps[a := r];
      rep := a;
      assert h.Words() == words[this := a];
    }

    /** `ErasePayload`: a record left with nothing to say goes back to a word. */
    method ErasePayload(h: Heap, url: string) returns (erased: bool)
      requires h.Valid() && this in h.keys
      modifies h`reps, this
      ensures h.Valid()
      ensures erased <==> HasPayload(old(h.Shows())[this], url)
      ensures h.Shows() == old(h.Shows())[this := WithoutPayload(old(h.Shows())[this], url)]
    {
      hide Ok, View, WordOk, Unreffed, Shown, Content, RepOk, Erase, AsMap, OwnCopy, WithoutPayload, HasPayload,
        CodeToInlinedRep, InlinedRepToCode, MovedFromRep, Reffed;
      ghost var reps, words := h.reps, h.Words();
      KeyWord(reps, words, this);
      if IsInlined(rep) {
        InlinedHasNone(reps, rep, url);
        assert h.Words() == words;
        assert h.Shows()[this := h.Shows()[this]] == h.Shows();
        return false;
      }
      var a := PrepareToModify(h);
      var c := h.reps[a];
      ErasedRecord(reps, words, this, a, url);
      var found, index := FindPayloadIndexByUrl(c.payloads, url);
      if !found {
        Replace(reps, words, this, a, c);
        rep := a;
        assert h.Words() == words[this := a];
        return false;
      }
      var r := c.(payloads := c.payloads[..index] + c.payloads[index + 1..]);
      assert r == ErasedFrom(c, url) by { EraseAt(c.payloads, url, index); }
      assert Unreffed(reps, rep)[a := c][a := r] == Unreffed(reps, rep)[a := r];
      h.reps := h.reps[a := r];
      if r.payloads == [] && r.message == "" {
        CollapseToWord(reps, words, this, r.code);
        h.Unref(a);
        FreeAgain(Unreffed(reps, rep), a, r);
        rep := CodeToInlinedRep(r.code);
      } else {
        Replace(reps, words, this, a, r);
        rep := a;
      }
      assert h.Words() == words[this := rep];
      return true;
    }

    method RawCode(h: Heap) returns (code: Code)
      requires h.Valid() && this in h.keys
      ensures code == ObservedCode(h.Shows()[this])
    {
      hide Shown, CodeToInlinedRep, InlinedRepToCode;
      MovedFromWord(OK);
      KeyWord(h.reps, h.Words(), this);
      code := if IsInlined(rep) then InlinedRepToCode(rep) else h.reps[rep].code;
    }

    method Message(h: Heap) returns (message: string)
      requires h.Valid() && this in h.keys
      ensures message == ObservedMessage(h.Shows()[this])
    {
      MovedFromWord(OK);
      KeyWord(h.reps, h.Words(), this);
      CodeRoundTrip(InlinedRepToCode(rep));
      hide Shown, CodeToInlinedRep, InlinedRepToCode, IsMovedFrom;
      if !IsInlined(rep) {
        message := h.reps[rep].message;
      } else if IsMovedFrom(rep) {
        message := MOVED_FROM_STRING;
      } else {
        message := "";
      }
    }

    method GetPayload(h: Heap, url: string) returns (found: bool, data: string)
      requires h.Valid() && this in h.keys
      ensures found <==> HasPayload(h.Shows()[this], url)
      ensures found ==> data == h.Shows()[this].payloads[url]
    {
      hide Shown, CodeToInlinedRep, InlinedRepToCode, MovedFromRep, AsMap;
      MovedFromWord(OK);
      KeyWord(h.reps, h.Words(), this);
      if IsInlined(rep) {
        return false, "";
      }
      var index;
      found, index := FindPayloadIndexByUrl(h.reps[rep].payloads, url);
      data := if found then h.reps[rep].payloads[index].data else "";
    }

    /** `operator==`: compares the words first and records only if both have one. */
    method Equals(h: Heap, x: Key) returns (same: bool)
      requires h.Valid() && this in h.keys && x in h.keys
      ensures same <==> h.Shows()[this] == h.Shows()[x]
    {
      hide Ok, View, WordOk, Shown, Content, RepOk, AsMap, CodeToInlinedRep, InlinedRepToCode, MovedFromRep;
      ghost var words := h.Words();
      KeyWord(h.reps, words, this);
      KeyWord(h.reps, words, x);
      if rep == x.rep {
        return true;
      }
      if IsInlined(rep) || IsInlined(x.rep) {
        WordsTell(h.reps, words, this, x);
        return false;
      }
      var a, b := h.reps[rep], h.reps[x.rep];
      RecordsTell(h.reps, words, this, x);
      if a.code != b.code || a.message != b.message {
        return false;
      }
      same := SamePayloads(a.payloads, b.payloads);
    }
  }

  function ObservedCode(s: Status): Code {
    if s.Moved? then INTERNAL else s.code
  }

  function ObservedMessage(s: Status): string {
    if s.Moved? then MOVED_FROM_STRING else s.message
  }

  function ObservedPayloads(s: Status): map<string, string> {
    if s.Moved? then map[] else s.payloads
  }

  /** A key made to look like a moved-from one. */
  ghost predicate Disguised(moved: Status, s: Status) {
    moved.Moved? && s == Live(INTERNAL, MOVED_FROM_STRING, map[])
  }

  /** Equality of keys is equality of everything that can be read from them,
      except for a moved-from key and its disguise. */
  lemma EqualityIsObservable(s: Status, t: Status)
    ensures s == t || Disguised(s, t) || Disguised(t, s)
       <==> && ObservedCode(s) == ObservedCode(t)
            && ObservedMessage(s) == ObservedMessage(t)
            && ObservedPayloads(s) == ObservedPayloads(t)
  {
  }

  /** Two different words of which one is inlined show different things. */
  lemma WordsTell(reps: Reps, words: map<Key, nat>, j: Key, k: Key)
    requires Ok(reps, words) && j in words && k in words && words[j] != words[k]
    requires IsInlined(words[j]) || IsInlined(words[k])
    ensures WordOk(reps, words[j]) && WordOk(reps, words[k])
    ensures View(reps, words[j]) != View(reps, words[k])
  {
    MovedFromWord(OK);
    hide CodeToInlinedRep, InlinedRepToCode, MovedFromRep;
    forall a | a in reps ensures RepOk(a, reps[a]) && Content(reps[a]) != Live(reps[a].code, "", map[]) {
      MapSize(reps[a].payloads);
    }
  }

  lemma RecordsTell(reps: Reps, words: map<Key, nat>, j: Key, k: Key)
    requires Ok(reps, words) && j in words && k in words && !IsInlined(words[j]) && !IsInlined(words[k])
    ensures WordOk(reps, words[j]) && WordOk(reps, words[k]) && words[j] in reps && words[k] in reps
    ensures Distinct(reps[words[j]].payloads) && Distinct(reps[words[k]].payloads)
    ensures View(reps, words[j]) == Content(reps[words[j]]) && View(reps, words[k]) == Content(reps[words[k]])
    ensures Content(reps[words[j]]) == Content(reps[words[k]]) <==>
      && reps[words[j]].code == reps[words[k]].code
      && reps[words[j]].message == reps[words[k]].message
      && AsMap(reps[words[j]].payloads) == AsMap(reps[words[k]].payloads)
  {
    MovedFromWord(OK);
    hide CodeToInlinedRep, InlinedRepToCode, MovedFromRep, AsMap;
    assert RepOk(words[j], reps[words[j]]) && RepOk(words[k], reps[words[k]]);
  }

  function ErasedFrom(c: Rep, url: string): Rep {
    c.(payloads := Erase(c.payloads, url))
  }

  lemma EraseAt(ps: seq<Payload>, url: string, i: nat)
    requires i < |ps| && i == Find(ps, url)
    ensures Erase(ps, url) == ps[..i] + ps[i + 1..]
  {
  }

  predicate HasPayload(s: Status, url: string) {
    s.Live? && url in s.payloads
  }

  function WithoutPayload(s: Status, url: string): Status {
    match s
    case Moved => Moved
    case Live(code, message, payloads) => Live(code, message, payloads - {url})
  }

  lemma InlinedHasNone(reps: Reps, w: nat, url: string)
    requires WordOk(reps, w) && IsInlined(w)
    ensures !HasPayload(View(reps, w), url) && WithoutPayload(View(reps, w), url) == View(reps, w)
  {
    hide CodeToInlinedRep, InlinedRepToCode, MovedFromRep;
  }

  lemma ErasedRecord(reps: Reps, words: map<Key, nat>, k: Key, a: nat, url: string)
    requires Ok(reps, words) && k in words && a % 4 == 0 && WordOk(reps, words[k]) && !IsInlined(words[k])
    ensures words[k] in reps
    ensures var c, before := OwnCopy(reps, words[k]), View(reps, words[k]);
      var r := ErasedFrom(c, url);
      && c.ref == 1
      && RepOk(a, c)
      && before == Content(c)
      && (HasPayload(before, url) <==> url in AsMap(c.payloads))
      && Content(r) == WithoutPayload(before, url)
      && (url !in AsMap(c.payloads) ==> WithoutPayload(before, url) == before)
      && (r.payloads != [] || r.message != "" ==> RepOk(a, r))
      && (r.payloads == [] && r.message == "" ==> Content(r) == Live(r.code, "", map[]))
  {
    MovedFromWord(OK);
    hide CodeToInlinedRep, InlinedRepToCode, MovedFromRep;
    var c := OwnCopy(reps, words[k]);
    assert RepOk(words[k], reps[words[k]]);
    EraseMeaning(c.payloads, url);
  }

  lemma CollapseToWord(reps: Reps, words: map<Key, nat>, k: Key, code: Code)
    requires Ok(reps, words) && k in words && !IsInlined(words[k])
    requires words[k] in reps && reps[words[k]].ref > 0
    ensures var w := CodeToInlinedRep(code);
      && Ok(Unreffed(reps, words[k]), words[k := w])
      && Shown(Unreffed(reps, words[k]), words[k := w]) == Shown(reps, words)[k := Live(code, "", map[])]
  {
    InlinedWord(reps, code);
    hide Ok, View, WordOk, Shown, CodeToInlinedRep, InlinedRepToCode, MovedFromRep, Unreffed, Reffed;
    KeyHeap.Assign(reps, words, k, CodeToInlinedRep(code));
  }

  lemma FreeAgain(reps: Reps, a: nat, r: Rep)
    requires a !in reps && r.ref == 1 && a % 4 == 0
    ensures Unreffed(reps[a := r], a) == reps
  {
  }

  /** The content of a word as a record with one reference. */
  function OwnCopy(reps: Reps, w: nat): Rep
    requires IsInlined(w) || w in reps
  {
    if IsInlined(w) then Rep(1, InlinedRepToCode(w), "", []) else reps[w].(ref := 1)
  }

  /** The copy of a key's content keeps its code, message and payloads. Only the
      text that a moved-from key shows is lost. */
  lemma CopyShows(reps: Reps, words: map<Key, nat>, k: Key)
    requires Ok(reps, words) && k in words
    ensures IsInlined(words[k]) || words[k] in reps
    ensures var s, c := Shown(reps, words)[k], OwnCopy(reps, words[k]);
      && c.ref == 1 && c.code == ObservedCode(s)
      && c.message == (if s.Moved? then "" else s.message)
      && AsMap(c.payloads) == ObservedPayloads(s)
  {
    MovedFromWord(OK);
    hide CodeToInlinedRep, InlinedRepToCode, MovedFromRep;
    KeyWord(reps, words, k);
  }

  /** What can be read from a key after its payloads were edited: the code stays,
      the message stays too, and the payloads are a map with one change. */
  lemma PayloadLaws(s: Status, url: string, data: string)
    ensures var t := WithPayload(s, url, data);
      && ObservedCode(t) == ObservedCode(s)
      && ObservedMessage(t) == (if s.Moved? then "" else ObservedMessage(s))
      && ObservedPayloads(t) == ObservedPayloads(s)[url := data]
    ensures var t := WithoutPayload(s, url);
      && ObservedCode(t) == ObservedCode(s)
      && ObservedMessage(t) == ObservedMessage(s)
      && ObservedPayloads(t) == ObservedPayloads(s) - {url}
    ensures HasPayload(s, url) <==> url in ObservedPayloads(s)
  {
  }

  /** A moved-from key that gets a payload is a plain internal error again. */
  function WithPayload(s: Status, url: string, data: string): Status {
    match s
    case Moved => Live(INTERNAL, "", map[url := data])
    case Live(code, message, payloads) => Live(code, message, payloads[url := data])
  }

  lemma AlignedAddress(reps: Reps, words: map<Key, nat>, k: Key)
    requires Ok(reps, words) && k in words && words[k] in reps
    ensures words[k] % 4 == 0
  {
    assert RepOk(words[k], reps[words[k]]);
  }

  lemma PayloadRecord(reps: Reps, words: map<Key, nat>, k: Key, a: nat, url: string, data: string)
    requires Ok(reps, words) && k in words && a % 4 == 0 && WordOk(reps, words[k])
    requires IsInlined(words[k]) || words[k] in reps
    requires !IsOkStatus(View(reps, words[k]))
    ensures var c := OwnCopy(reps, words[k]);
      var r := c.(payloads := Set(c.payloads, url, data));
      RepOk(a, r) && r.ref == 1 && Content(r) == WithPayload(View(reps, words[k]), url, data)
  {
    MovedFromWord(OK);
    hide CodeToInlinedRep, InlinedRepToCode, MovedFromRep;
    var c := OwnCopy(reps, words[k]);
    assert Distinct(c.payloads) by {
      if !IsInlined(words[k]) {
        assert RepOk(words[k], reps[words[k]]);
      }
    }
    SetMeaning(c.payloads, url, data);
  }

  predicate IsOkStatus(s: Status) {
    s.Live? && s.code == OK
  }

  /** What is known of one key of a valid heap. */
  lemma KeyWord(reps: Reps, words: map<Key, nat>, k: Key)
    requires Ok(reps, words) && k in words
    ensures WordOk(reps, words[k]) && Shown(reps, words)[k] == View(reps, words[k])
    ensures IsInlined(words[k]) || (words[k] in reps && reps[words[k]].ref > 0)
  {
    hide CodeToInlinedRep, InlinedRepToCode, MovedFromRep, View;
  }

  lemma RefKeepsOther(reps: Reps, w: nat, v: nat)
    requires IsInlined(w) || w in reps
    requires IsInlined(v) || (v in reps && reps[v].ref > 0)
    ensures IsInlined(v) || (v in Reffed(reps, w) && Reffed(reps, w)[v].ref > 0)
  {
  }
}
