/** The reference store: memory/memory.go. Its methods hold the lock throughout, so each is one atomic step. */
module Memory {
  import opened Bytes
  import opened Stores

  // A transaction's staged writes.
  class Tx<V> {
    var pending: map<Bytes, V>

    constructor ()
      ensures pending == map[]
    {
      pending := map[];
    }
  }

  // The context an effect is given carries the transaction; any other does not.
  datatype Context<V> = Background | InTx(tx: Tx<V>)

  class Store<V> {
    var consumed: map<Bytes, Consumption>
    var committed: map<Bytes, V>

    ghost function Abstract(): State<V>
      reads this
    {
      State(consumed, committed)
    }

    constructor ()
      ensures Abstract() == Empty()
    {
      consumed, committed := map[], map[];
    }

    // Stages a write in the context's transaction; the store itself is not touched.
    method Put(ctx: Context<V>, key: Bytes, value: V) returns (ok: bool)
      modifies if ctx.InTx? then {ctx.tx} else {}
      ensures ok <==> ctx.InTx?
      ensures ok ==> ctx.tx.pending == old(ctx.tx.pending)[key := value]
    {
      match ctx {
        case Background =>
          return false;
        case InTx(t) =>
          t.pending := t.pending[key := value];
          return true;
      }
    }

    method RunEffect(ctx: Context<V>, effect: Effect<V>)
      requires ctx.InTx?
      modifies ctx.tx
      ensures ctx.tx.pending == ApplyPuts(old(ctx.tx.pending), effect.puts)
    {
      ghost var before := ctx.tx.pending;
      for i := 0 to |effect.puts|
        invariant ctx.tx.pending == ApplyPuts(before, effect.puts[..i])
      {
        var ok := Put(ctx, effect.puts[i].0, effect.puts[i].1);
        assert effect.puts[..i + 1][..i] == effect.puts[..i];
      }
      assert effect.puts[..|effect.puts|] == effect.puts;
    }

    // runs counts the invocations of the effect; ctx is the context it was
    // given, which it may have kept.
    method Consume(rec: Consumption, effect: Effect<V>) returns (outcome: Outcome, runs: nat, ctx: Context<V>)
      modifies this
      ensures (Abstract(), outcome) == Stores.Consume(old(Abstract()), Call(rec, effect))
      ensures runs == if rec.id in old(consumed) then 0 else 1
      ensures ctx.InTx? ==> fresh(ctx.tx)
    {
      if rec.id in consumed {
        return AlreadyConsumed, 0, Background;
      }
      var t := new Tx<V>();
      ctx, runs := InTx(t), 1;
      RunEffect(ctx, effect);
      match effect.ending {
        case Error(code) =>
          outcome := EffectFailed(code);
        case Panic =>
          outcome := EffectPanicked;
        case Nil =>
          consumed := consumed[rec.id := rec];
          PendingMerges(committed, effect.puts);
          Merge(t);
          outcome := Done;
      }
    }

    // The merge visits the staged keys in any order.
    method Merge(t: Tx<V>)
      modifies this`committed
      ensures committed == old(committed) + t.pending
    {
      ghost var before := committed;
      var keys := t.pending.Keys;
      while keys != {}
        invariant keys <= t.pending.Keys
        invariant committed.Keys == before.Keys + (t.pending.Keys - keys)
        invariant forall k :: k in committed ==>
                    committed[k] == if k in t.pending && k !in keys then t.pending[k] else before[k]
        decreases |keys|
      {
        var k :| k in keys;
        committed := committed[k := t.pending[k]];
        keys := keys - {k};
      }
    }

    method Get(key: Bytes) returns (value: Option<V>)
      ensures value == if key in committed then Some(committed[key]) else None
    {
      value := if key in committed then Some(committed[key]) else None;
    }

    method Record(id: Bytes) returns (rec: Option<Consumption>)
      ensures rec == if id in consumed then Some(consumed[id]) else None
    {
      rec := if id in consumed then Some(consumed[id]) else None;
    }

    // A write through a context kept after its effect contributes nothing to
    // the store, whatever the effect's outcome was.
    method LateWrite(rec: Consumption, effect: Effect<V>, key: Bytes, value: V) returns (outcome: Outcome)
      modifies this
      ensures (Abstract(), outcome) == Stores.Consume(old(Abstract()), Call(rec, effect))
    {
      var runs, ctx;
      outcome, runs, ctx := Consume(rec, effect);
      var _ := Put(ctx, key, value);
    }
  }

  // Staging a script and merging it is the same as applying it in place.
  lemma {:induction false} PendingMerges<V>(m: map<Bytes, V>, puts: seq<(Bytes, V)>)
    ensures ApplyPuts(m, puts) == m + ApplyPuts(map[], puts)
  {
    if puts != [] {
      PendingMerges(m, puts[..|puts| - 1]);
    }
  }
}
