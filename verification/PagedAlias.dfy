/** Keys taken for one another: what put and delete do when the first slot with the hash,
    length and prefix of `k` stores another key `k'`. */
module PagedAlias {
  import opened PagedLayout
  import opened PagedPage
  import opened PagedState
  import opened PagedSteps
  import opened PagedEffects
  import opened PagedTransitions

  /** The two in-place branches of a put that stopped at slot `i`. */
  function InPlace(st: State, cur: nat, i: nat, v: Value): State
    requires InPlaceFits(st, cur, i, v)
  {
    var p := PageAt(st.flat, cur);
    var s := p.slots[i];
    if s.inlined then WithPage(st, cur, ShrinkInline(p, i, v))
    else
      var bytes := Splice(st.flat[s.fileOff].bytes, RECORD_HEADER + s.klen, v);
      WithPage(WithRecord(st, s.fileOff, bytes, cur), cur, ShrinkRecord(p, i, v))
  }

  predicate InPlaceFits(st: State, cur: nat, i: nat, v: Value) {
    && IsPage(st.flat, cur) && i < |PageAt(st.flat, cur).slots|
    && var s := PageAt(st.flat, cur).slots[i];
    && |v| <= s.vlen
    && (s.inlined ==> s.fileOff + s.klen + s.vlen <= |PageAt(st.flat, cur).area|)
    && (!s.inlined ==> s.fileOff in st.flat && st.flat[s.fileOff].RecC?
                       && RECORD_HEADER + s.klen + s.vlen <= |st.flat[s.fileOff].bytes|)
  }

  /** In place, a put of `k` is then a put of `k'`. So it gives `k` its value if and only if the
      two are the same key, or `k` had that value already. */
  lemma AliasTakesThePut(hash: HashFn, st: State, cur: nat, i: nat, k: Key, k': Key, v: Value)
    requires FoundAt(hash, st, cur, i, k') && SameIdent(hash, k, k')
    requires |v| <= PageAt(st.flat, cur).slots[i].vlen
    ensures Matches(PageAt(st.flat, cur).slots[i], hash(k), k) && InPlaceFits(st, cur, i, v)
    ensures var st' := InPlace(st, cur, i, v);
            && Replaced(hash, st, st', k', v)
            && (Lookup(hash, st', k) == Some(v) <==> k == k' || Lookup(hash, st, k) == Some(v))
  {
    MatchIsIdent(hash, st.flat, st.owner, cur, PageAt(st.flat, cur), i, k);
    if PageAt(st.flat, cur).slots[i].inlined {
      ShrinkInlineStep(hash, st, cur, i, k', v);
    } else {
      ShrinkRecordStep(hash, st, cur, i, k', v);
    }
  }

  /** Out of line the record is written with `k`: `k` gets its value, and the slot of `k'` is
      gone. */
  lemma AliasMovesTheSlot(hash: HashFn, st: State, cur: nat, i: nat, k: Key, k': Key, v: Value, rec: nat)
    requires FoundAt(hash, st, cur, i, k') && SameIdent(hash, k, k') && k != k' && FreshBlock(st, rec)
    requires WalkAt(hash, st, cur, k) && !HasKey(EntriesAt(st.flat, cur), k)
    ensures var st' := WithPage(WithRecord(st, rec, RecordBytes(k, v), cur), cur, Promote(PageAt(st.flat, cur), i, v, rec));
            && Stack(hash, st', k) == [v] + Stack(hash, st, k)
            && Stack(hash, st, k') != [] && Stack(hash, st', k') == Stack(hash, st, k')[1..]
  {
    var p, es := PageAt(st.flat, cur), EntriesAt(st.flat, cur);
    assert Linked(st, cur);
    MatchIsIdent(hash, st.flat, st.owner, cur, p, i, k);
    PromoteOK(hash, st.flat, st.owner, cur, p, i, k, v, rec);
    var q := Promote(p, i, v, rec);
    var mid := WithRecord(st, rec, RecordBytes(k, v), cur);
    FitsUpdate(p, q, i, st.home[cur]);
    RecordOnly(st, rec, RecordBytes(k, v), cur);
    RewrittenBy(hash, st, mid, cur, q);
    MovedStacks(hash, st, WithPage(mid, cur, q), cur, i, k, k', v);
  }

  lemma MovedStacks(hash: HashFn, st: State, st': State, cur: nat, i: nat, k: Key, k': Key, v: Value)
    requires FoundAt(hash, st, cur, i, k') && WalkAt(hash, st, cur, k) && k != k'
    requires Rewritten(hash, st, st', cur) && !HasKey(EntriesAt(st.flat, cur), k)
    requires EntriesAt(st'.flat, cur) == EntriesAt(st.flat, cur)[i := Entry(k, v)]
    ensures Stack(hash, st', k) == [v] + Stack(hash, st, k)
    ensures Stack(hash, st, k') != [] && Stack(hash, st', k') == Stack(hash, st, k')[1..]
  {
    MovedCopies(EntriesAt(st.flat, cur), i, k, k', v);
    MovedIn(hash, st, st', cur, k, v);
    MovedAway(hash, st, st', cur, i, k, k', v);
  }

  lemma MovedIn(hash: HashFn, st: State, st': State, cur: nat, k: Key, v: Value)
    requires WalkAt(hash, st, cur, k) && Rewritten(hash, st, st', cur)
    requires Copies(EntriesAt(st.flat, cur), k) == [] && Copies(EntriesAt(st'.flat, cur), k) == [v]
    ensures Stack(hash, st', k) == [v] + Stack(hash, st, k)
  {
    RewriteStack(hash, st, st', cur, k);
    OnTop(Copies(EntriesAt(st.flat, cur), k), Copies(EntriesAt(st'.flat, cur), k), ChainRest(st.flat, cur, k), v);
  }

  lemma OnTop(a: seq<Value>, b: seq<Value>, rest: seq<Value>, v: Value)
    requires a == [] && b == [v]
    ensures b + rest == [v] + (a + rest)
  {
    assert a + rest == rest;
  }

  lemma MovedAway(hash: HashFn, st: State, st': State, cur: nat, i: nat, k: Key, k': Key, v: Value)
    requires FoundAt(hash, st, cur, i, k') && Rewritten(hash, st, st', cur)
    requires |Copies(EntriesAt(st.flat, cur), k')| == 1 && Copies(EntriesAt(st'.flat, cur), k') == []
    ensures Stack(hash, st, k') != [] && Stack(hash, st', k') == Stack(hash, st, k')[1..]
  {
    RewriteStack(hash, st, st', cur, k');
  }

  lemma MovedCopies(es: seq<Entry>, i: nat, k: Key, k': Key, v: Value)
    requires DistinctKeys(es) && i < |es| && es[i].key == k' && k != k' && !HasKey(es, k)
    ensures Copies(es, k) == [] && Copies(es[i := Entry(k, v)], k) == [v]
    ensures |Copies(es, k')| == 1 && Copies(es[i := Entry(k, v)], k') == []
  {
    NoCopies(es, k);
    OneCopy(es, i);
    ReplaceCopies(es, i, Entry(k, v), k);
    ReplaceCopies(es, i, Entry(k, v), k');
  }

  /** A delete of `k` takes the copy of `k'`; every other key, `k` among them, keeps its copies. */
  lemma AliasTakesTheDelete(hash: HashFn, st: State, cur: nat, i: nat, k: Key, k': Key)
    requires FoundAt(hash, st, cur, i, k') && SameIdent(hash, k, k')
    ensures Matches(PageAt(st.flat, cur).slots[i], hash(k), k)
    ensures var st' := WithPage(st, cur, RemoveSlot(PageAt(st.flat, cur), i));
            && Removed(hash, st, st', k')
            && (Stack(hash, st, k) != [] ==> (Stack(hash, st', k) == Stack(hash, st, k)[1..] <==> k == k'))
  {
    MatchIsIdent(hash, st.flat, st.owner, cur, PageAt(st.flat, cur), i, k);
    RemoveStep(hash, st, cur, i, k');
  }
}
