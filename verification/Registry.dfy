/** The instrument registry: stable ids, and reverse indexes for keys, symbols and rotating tokens. */
module Registry {
  import opened MachineInts

  datatype Class = Spot | Perp | PredictionBinary | OracleReference
  datatype Asset = Btc | Eth | Sol | Xrp | Doge | Usdt | Usdc | Usd
  datatype Timeframe = M5 | M15 | M60 | H4
  datatype Outcome = Up | Down | Yes | No

  datatype Key = Key(kind: Class, base: Asset, quote: Option<Asset>, timeframe: Option<Timeframe>, outcome: Option<Outcome>)

  function PredictionKey(base: Asset, timeframe: Timeframe, outcome: Outcome): Key {
    Key(PredictionBinary, base, Some(Usdc), Some(timeframe), Some(outcome))
  }

  datatype Window = Window(token: string, slug: string, start: nat, end: nat, condition: Option<string>)

  /** The rotating venue binding: the window traded now and the one pre-subscribed. */
  datatype Binding = Binding(current: Option<Window>, next: Option<Window>)

  const Unbound: Binding := Binding(None, None)

  datatype Meta = Meta(tickSize: int, lotSize: int)

  datatype Record = Record(id: nat, key: Key, meta: Meta, symbol: Option<string>, polymarket: Option<Binding>)

  datatype Error =
    | DuplicateInstrumentKey | DuplicateBinanceSymbol(symbol: string)
    | MissingInstrument(id: nat) | MissingPolymarketBinding(id: nat) | NoNextWindow(id: nat) | IdSpaceExhausted

  datatype Result<T> = Ok(value: T) | Err(error: Error)

  const ID_SPACE: nat := 0x1_0000_0000

  /** `nextId` 0 means that all ids are used up. */
  datatype Reg = Reg(byId: map<nat, Record>, byKey: map<Key, nat>, bySymbol: map<string, nat>, byToken: map<string, nat>, nextId: nat)

  const Empty: Reg := Reg(map[], map[], map[], map[], 1)

  // ---- Operations on values ----

  function Insert(r: Reg, key: Key, meta: Meta, symbol: Option<string>, polymarket: Option<Binding>): (Reg, Result<nat>) {
    if key in r.byKey then (r, Err(DuplicateInstrumentKey))
    else if r.nextId == 0 then (r, Err(IdSpaceExhausted))
    else
      var id := r.nextId;
      var r1 := r.(nextId := (r.nextId + 1) % ID_SPACE);
      if symbol.Some? && symbol.value in r.bySymbol then (r1, Err(DuplicateBinanceSymbol(symbol.value)))
      else
        (Reg(r.byId[id := Record(id, key, meta, symbol, polymarket)], r.byKey[key := id],
             if symbol.Some? then r.bySymbol[symbol.value := id] else r.bySymbol, r.byToken, r1.nextId), Ok(id))
  }

  function InsertPair(r: Reg, base: Asset, timeframe: Timeframe, meta: Meta, symbol: Option<string>): (Reg, Result<(nat, nat)>) {
    var up, down := PredictionKey(base, timeframe, Up), PredictionKey(base, timeframe, Down);
    if up in r.byKey || down in r.byKey then (r, Err(DuplicateInstrumentKey))
    else if symbol.Some? && symbol.value in r.bySymbol then (r, Err(DuplicateBinanceSymbol(symbol.value)))
    else
      var first := Insert(r, up, meta, symbol, Some(Unbound));
      match first.1
      case Err(e) => (first.0, Err(e))
      case Ok(upId) =>
        var second := Insert(first.0, down, meta, None, Some(Unbound));
        match second.1
        case Err(e) => (second.0, Err(e))
        case Ok(downId) => (second.0, Ok((upId, downId)))
  }

  /** Why a binding operation on `id` cannot proceed. */
  function BindingFault(r: Reg, id: nat): Option<Error> {
    if id !in r.byId then Some(MissingInstrument(id))
    else if r.byId[id].polymarket.None? then Some(MissingPolymarketBinding(id))
    else None
  }

  function BindingOf(r: Reg, id: nat): Binding
    requires BindingFault(r, id).None?
  {
    r.byId[id].polymarket.value
  }

  function WithBinding(r: Reg, id: nat, b: Binding, byToken: map<string, nat>): Reg
    requires BindingFault(r, id).None?
  {
    r.(byId := r.byId[id := r.byId[id].(polymarket := Some(b))], byToken := byToken)
  }

  /** The token of a window slot, as the set of keys to drop from the index. */
  function TokenOf(w: Option<Window>): set<string> { if w.Some? then {w.value.token} else {} }

  function BindCurrent(r: Reg, id: nat, w: Window): (Reg, Result<()>) {
    var fault := BindingFault(r, id);
    if fault.Some? then (r, Err(fault.value))
    else
      var b := BindingOf(r, id);
      (WithBinding(r, id, b.(current := Some(w)), (r.byToken - TokenOf(b.current))[w.token := id]), Ok(()))
  }

  function BindNext(r: Reg, id: nat, w: Window): (Reg, Result<()>) {
    var fault := BindingFault(r, id);
    if fault.Some? then (r, Err(fault.value))
    else
      var b := BindingOf(r, id);
      (WithBinding(r, id, b.(next := Some(w)), (r.byToken - TokenOf(b.next))[w.token := id]), Ok(()))
  }

  function Promote(r: Reg, id: nat): (Reg, Result<()>) {
    var fault := BindingFault(r, id);
    if fault.Some? then (r, Err(fault.value))
    else
      var b := BindingOf(r, id);
      if b.next.None? then (r, Err(NoNextWindow(id)))
      else (WithBinding(r, id, Binding(b.next, None), r.byToken - TokenOf(b.current)), Ok(()))
  }

  function Unbind(r: Reg, id: nat): (Reg, Result<()>) {
    var fault := BindingFault(r, id);
    if fault.Some? then (r, Err(fault.value))
    else
      var b := BindingOf(r, id);
      (WithBinding(r, id, Unbound, r.byToken - TokenOf(b.current) - TokenOf(b.next)), Ok(()))
  }

  // ---- The registry as an object ----

  class InstrumentRegistry {
    var byId: map<nat, Record>
    var byKey: map<Key, nat>
    var bySymbol: map<string, nat>
    var byToken: map<string, nat>
    var nextId: nat

    function Value(): Reg
      reads this
    {
      Reg(byId, byKey, bySymbol, byToken, nextId)
    }

    constructor ()
      ensures Value() == Empty
    {
      byId, byKey, bySymbol, byToken, nextId := map[], map[], map[], map[], 1;
    }

    /** Ids are handed out once, in order; the failed duplicate-symbol check below still burns one. */
    method AllocId() returns (r: Result<nat>)
      modifies this`nextId
      ensures r == (if old(nextId) == 0 then Err(IdSpaceExhausted) else Ok(old(nextId)))
      ensures nextId == if old(nextId) == 0 then 0 else (old(nextId) + 1) % ID_SPACE
    {
      if nextId == 0 {
        return Err(IdSpaceExhausted);
      }
      r := Ok(nextId);
      nextId := (nextId + 1) % ID_SPACE;
    }

    method InsertInstrument(key: Key, meta: Meta, symbol: Option<string>, polymarket: Option<Binding>) returns (r: Result<nat>)
      modifies this
      ensures (Value(), r) == Insert(old(Value()), key, meta, symbol, polymarket)
    {
      if key in byKey {
        return Err(DuplicateInstrumentKey);
      }
      r := AllocId();
      if r.Err? {
        return;
      }
      var id := r.value;
      if symbol.Some? && symbol.value in bySymbol {
        return Err(DuplicateBinanceSymbol(symbol.value));
      }
      if symbol.Some? {
        bySymbol := bySymbol[symbol.value := id];
      }
      byKey := byKey[key := id];
      byId := byId[id := Record(id, key, meta, symbol, polymarket)];
    }

    method InsertPredictionPair(base: Asset, timeframe: Timeframe, meta: Meta, symbol: Option<string>)
      returns (r: Result<(nat, nat)>)
      modifies this
      ensures (Value(), r) == InsertPair(old(Value()), base, timeframe, meta, symbol)
    {
      var upKey, downKey := PredictionKey(base, timeframe, Up), PredictionKey(base, timeframe, Down);
      if upKey in byKey || downKey in byKey {
        return Err(DuplicateInstrumentKey);
      }
      if symbol.Some? && symbol.value in bySymbol {
        return Err(DuplicateBinanceSymbol(symbol.value));
      }
      var up := InsertInstrument(upKey, meta, symbol, Some(Unbound));
      if up.Err? {
        return Err(up.error);
      }
      var down := InsertInstrument(downKey, meta, None, Some(Unbound));
      if down.Err? {
        return Err(down.error);
      }
      r := Ok((up.value, down.value));
    }

    method BindPolymarketCurrent(id: nat, w: Window) returns (r: Result<()>)
      modifies this
      ensures (Value(), r) == BindCurrent(old(Value()), id, w)
    {
      if id !in byId {
        return Err(MissingInstrument(id));
      }
      var record := byId[id];
      if record.polymarket.None? {
        return Err(MissingPolymarketBinding(id));
      }
      var pm := record.polymarket.value;
      assert byToken - {} == byToken;
      if pm.current.Some? {
        byToken := byToken - {pm.current.value.token};
      }
      byToken := byToken[w.token := id];
      byId := byId[id := record.(polymarket := Some(pm.(current := Some(w))))];
      r := Ok(());
    }

    method BindPolymarketNext(id: nat, w: Window) returns (r: Result<()>)
      modifies this
      ensures (Value(), r) == BindNext(old(Value()), id, w)
    {
      if id !in byId {
        return Err(MissingInstrument(id));
      }
      var record := byId[id];
      if record.polymarket.None? {
        return Err(MissingPolymarketBinding(id));
      }
      var pm := record.polymarket.value;
      assert byToken - {} == byToken;
      if pm.next.Some? {
        byToken := byToken - {pm.next.value.token};
      }
      byToken := byToken[w.token := id];
      byId := byId[id := record.(polymarket := Some(pm.(next := Some(w))))];
      r := Ok(());
    }

    method PromotePolymarketNext(id: nat) returns (r: Result<()>)
      modifies this
      ensures (Value(), r) == Promote(old(Value()), id)
    {
      if id !in byId {
        return Err(MissingInstrument(id));
      }
      var record := byId[id];
      if record.polymarket.None? {
        return Err(MissingPolymarketBinding(id));
      }
      var pm := record.polymarket.value;
      assert byToken - {} == byToken;
      if pm.next.None? {
        return Err(NoNextWindow(id));
      }
      if pm.current.Some? {
        byToken := byToken - {pm.current.value.token};
      }
      byId := byId[id := record.(polymarket := Some(Binding(pm.next, None)))];
      r := Ok(());
    }

    method UnbindPolymarket(id: nat) returns (r: Result<()>)
      modifies this
      ensures (Value(), r) == Unbind(old(Value()), id)
    {
      if id !in byId {
        return Err(MissingInstrument(id));
      }
      var record := byId[id];
      if record.polymarket.None? {
        return Err(MissingPolymarketBinding(id));
      }
      var pm := record.polymarket.value;
      assert byToken - {} == byToken;
      if pm.current.Some? {
        byToken := byToken - {pm.current.value.token};
      }
      assert byToken - {} == byToken;
      if pm.next.Some? {
        byToken := byToken - {pm.next.value.token};
      }
      byId := byId[id := record.(polymarket := Some(Unbound))];
      r := Ok(());
    }
  }

  // ---- Consistency ----

  /** The instrument's current or next window has this token. */
  predicate HoldsToken(r: Reg, id: nat, token: string) {
    && id in r.byId && r.byId[id].polymarket.Some?
    && (token in TokenOf(r.byId[id].polymarket.value.current) || token in TokenOf(r.byId[id].polymarket.value.next))
  }

  /** The token index is exactly the pairs of token and owner found in the records. */
  ghost predicate TokensExact(r: Reg) {
    && (forall t :: t in r.byToken ==> HoldsToken(r, r.byToken[t], t))
    && (forall id, t :: HoldsToken(r, id, t) ==> t in r.byToken && r.byToken[t] == id)
  }

  /** No record holds one token in both of its windows. */
  ghost predicate WindowsDiffer(r: Reg) {
    forall id :: id in r.byId && r.byId[id].polymarket.Some? ==>
      TokenOf(r.byId[id].polymarket.value.current) !! TokenOf(r.byId[id].polymarket.value.next)
  }

  ghost predicate KeysExact(r: Reg) {
    && (forall k :: k in r.byKey ==> r.byKey[k] in r.byId && r.byId[r.byKey[k]].key == k)
    && (forall id :: id in r.byId ==> r.byId[id].key in r.byKey && r.byKey[r.byId[id].key] == id)
  }

  ghost predicate SymbolsExact(r: Reg) {
    && (forall s :: s in r.bySymbol ==> r.bySymbol[s] in r.byId && r.byId[r.bySymbol[s]].symbol == Some(s))
    && (forall id :: id in r.byId && r.byId[id].symbol.Some? ==>
          r.byId[id].symbol.value in r.bySymbol && r.bySymbol[r.byId[id].symbol.value] == id)
  }

  /** Ids in use are non-zero, match their record and lie below the next one to be handed out. */
  ghost predicate IdsOk(r: Reg) {
    && r.nextId < ID_SPACE
    && forall id :: id in r.byId ==> r.byId[id].id == id && 0 < id < ID_SPACE && (r.nextId == 0 || id < r.nextId)
  }

  ghost predicate Inv(r: Reg) { TokensExact(r) && WindowsDiffer(r) && KeysExact(r) && SymbolsExact(r) && IdsOk(r) }

  predicate EmptyBinding(b: Option<Binding>) { b.None? || b.value == Unbound }

  lemma InsertKeepsTokens(r: Reg, key: Key, meta: Meta, symbol: Option<string>, polymarket: Option<Binding>)
    requires Inv(r) && EmptyBinding(polymarket)
    ensures TokensExact(Insert(r, key, meta, symbol, polymarket).0)
  {
    var r' := Insert(r, key, meta, symbol, polymarket).0;
    assert forall id, t :: HoldsToken(r', id, t) <==> HoldsToken(r, id, t);
  }

  lemma InsertKeepsKeys(r: Reg, key: Key, meta: Meta, symbol: Option<string>, polymarket: Option<Binding>)
    requires KeysExact(r) && IdsOk(r)
    ensures KeysExact(Insert(r, key, meta, symbol, polymarket).0)
  {}

  lemma InsertKeepsSymbols(r: Reg, key: Key, meta: Meta, symbol: Option<string>, polymarket: Option<Binding>)
    requires SymbolsExact(r) && IdsOk(r)
    ensures SymbolsExact(Insert(r, key, meta, symbol, polymarket).0)
  {}

  lemma InsertKeepsWindows(r: Reg, key: Key, meta: Meta, symbol: Option<string>, polymarket: Option<Binding>)
    requires WindowsDiffer(r) && IdsOk(r) && EmptyBinding(polymarket)
    ensures var r' := Insert(r, key, meta, symbol, polymarket).0; WindowsDiffer(r') && IdsOk(r')
  {}

  /** Inserting an instrument without windows keeps every index exact. */
  lemma InsertKeeps(r: Reg, key: Key, meta: Meta, symbol: Option<string>, polymarket: Option<Binding>)
    requires Inv(r) && EmptyBinding(polymarket)
    ensures Inv(Insert(r, key, meta, symbol, polymarket).0)
  {
    InsertKeepsTokens(r, key, meta, symbol, polymarket);
    InsertKeepsKeys(r, key, meta, symbol, polymarket);
    InsertKeepsSymbols(r, key, meta, symbol, polymarket);
    InsertKeepsWindows(r, key, meta, symbol, polymarket);
  }

  /** An accepted insert keeps the registry consistent exactly when it brings no window: the code
      stores the windows of a given binding without indexing their tokens. */
  lemma InsertKeepsIff(r: Reg, key: Key, meta: Meta, symbol: Option<string>, polymarket: Option<Binding>)
    requires Inv(r) && Insert(r, key, meta, symbol, polymarket).1.Ok?
    ensures Inv(Insert(r, key, meta, symbol, polymarket).0) <==> EmptyBinding(polymarket)
  {
    if EmptyBinding(polymarket) {
      InsertKeeps(r, key, meta, symbol, polymarket);
    } else {
      var b, r' := polymarket.value, Insert(r, key, meta, symbol, polymarket).0;
      var token := if b.current.Some? then b.current.value.token else b.next.value.token;
      assert HoldsToken(r', r.nextId, token);
      assert r.nextId !in r.byId;
    }
  }

  /** Rewriting one binding leaves keys, symbols and ids alone. */
  lemma RebindKeepsRest(r: Reg, id: nat, b: Binding, byToken: map<string, nat>)
    requires Inv(r) && BindingFault(r, id).None?
    ensures var r' := WithBinding(r, id, b, byToken);
            && KeysExact(r') && SymbolsExact(r') && IdsOk(r')
            && (WindowsDiffer(r') <==> TokenOf(b.current) !! TokenOf(b.next))
            && forall i, t :: HoldsToken(r', i, t) <==>
                 if i == id then t in TokenOf(b.current) || t in TokenOf(b.next) else HoldsToken(r, i, t)
  {
    var r' := WithBinding(r, id, b, byToken);
    assert r'.byId[id].polymarket.value == b;
  }

  /** Binding keeps the registry consistent exactly when the token is not already held in another
      slot: the code does not check that. */
  lemma BindCurrentKeepsIff(r: Reg, id: nat, w: Window)
    requires Inv(r) && BindingFault(r, id).None?
    ensures Inv(BindCurrent(r, id, w).0) <==> w.token !in r.byToken || w.token in TokenOf(BindingOf(r, id).current)
  {
    var b, r' := BindingOf(r, id), BindCurrent(r, id, w).0;
    RebindKeepsRest(r, id, b.(current := Some(w)), r'.byToken);
    RebindTokens(r, id, b.current, b.next, w, r');
  }

  lemma BindNextKeepsIff(r: Reg, id: nat, w: Window)
    requires Inv(r) && BindingFault(r, id).None?
    ensures Inv(BindNext(r, id, w).0) <==> w.token !in r.byToken || w.token in TokenOf(BindingOf(r, id).next)
  {
    var b, r' := BindingOf(r, id), BindNext(r, id, w).0;
    RebindKeepsRest(r, id, b.(next := Some(w)), r'.byToken);
    RebindTokens(r, id, b.next, b.current, w, r');
  }

  /** Replacing one window `old` of a record by `w`, while it keeps the window `kept`. */
  lemma RebindTokens(r: Reg, id: nat, old_: Option<Window>, kept: Option<Window>, w: Window, r': Reg)
    requires Inv(r) && BindingFault(r, id).None?
    requires TokenOf(old_) + TokenOf(kept) == TokenOf(BindingOf(r, id).current) + TokenOf(BindingOf(r, id).next)
    requires TokenOf(old_) !! TokenOf(kept)
    requires r'.byToken == (r.byToken - TokenOf(old_))[w.token := id]
    requires forall i, t :: HoldsToken(r', i, t) <==> if i == id then t == w.token || t in TokenOf(kept) else HoldsToken(r, i, t)
    ensures TokensExact(r') && w.token !in TokenOf(kept) <==> w.token !in r.byToken || w.token in TokenOf(old_)
  {
    assert forall t :: HoldsToken(r, id, t) <==> t in TokenOf(old_) || t in TokenOf(kept);
    assert HoldsToken(r', id, w.token);
    if w.token in r.byToken && w.token !in TokenOf(old_) {
      var owner := r.byToken[w.token];
      assert HoldsToken(r, owner, w.token);
      if owner != id { assert HoldsToken(r', owner, w.token); }
    } else {
      forall i, t | HoldsToken(r', i, t)
        ensures t in r'.byToken && r'.byToken[t] == i
      {
        if i != id {
          assert HoldsToken(r, i, t);
          assert !HoldsToken(r, id, t);
        } else if t != w.token {
          assert HoldsToken(r, id, t);
        }
      }
      forall t | t in r'.byToken
        ensures HoldsToken(r', r'.byToken[t], t)
      {
        if t != w.token { assert HoldsToken(r, r.byToken[t], t); }
      }
    }
  }

  lemma PromoteKeeps(r: Reg, id: nat)
    requires Inv(r)
    ensures Inv(Promote(r, id).0)
  {
    if Promote(r, id).1.Ok? {
      var b, r' := BindingOf(r, id), Promote(r, id).0;
      RebindKeepsRest(r, id, Binding(b.next, None), r'.byToken);
      DroppedTokens(r, id, TokenOf(b.current), TokenOf(b.next), r');
    }
  }

  lemma UnbindKeeps(r: Reg, id: nat)
    requires Inv(r)
    ensures Inv(Unbind(r, id).0)
  {
    if Unbind(r, id).1.Ok? {
      var b, r' := BindingOf(r, id), Unbind(r, id).0;
      assert r'.byToken == r.byToken - (TokenOf(b.current) + TokenOf(b.next));
      RebindKeepsRest(r, id, Unbound, r'.byToken);
      DroppedTokens(r, id, TokenOf(b.current) + TokenOf(b.next), {}, r');
    }
  }

  /** Dropping tokens from a record and from the index together keeps the index exact. */
  lemma DroppedTokens(r: Reg, id: nat, dropped: set<string>, kept: set<string>, r': Reg)
    requires Inv(r) && BindingFault(r, id).None?
    requires dropped + kept == TokenOf(BindingOf(r, id).current) + TokenOf(BindingOf(r, id).next) && dropped !! kept
    requires r'.byToken == r.byToken - dropped
    requires forall i, t :: HoldsToken(r', i, t) <==> if i == id then t in kept else HoldsToken(r, i, t)
    ensures TokensExact(r')
  {
    assert forall t :: HoldsToken(r, id, t) <==> t in dropped || t in kept;
    forall i, t | HoldsToken(r', i, t)
      ensures t in r'.byToken && r'.byToken[t] == i
    {
      assert HoldsToken(r, i, t);
      if i != id { assert !HoldsToken(r, id, t); }
    }
    forall t | t in r'.byToken
      ensures HoldsToken(r', r'.byToken[t], t)
    {
      assert HoldsToken(r, r.byToken[t], t);
    }
  }

  // ---- Runs ----

  datatype Op =
    | OpInsert(key: Key, meta: Meta, symbol: Option<string>, polymarket: Option<Binding>)
    | OpPair(base: Asset, timeframe: Timeframe, meta: Meta, symbol: Option<string>)
    | OpBindCurrent(id: nat, w: Window)
    | OpBindNext(id: nat, w: Window)
    | OpPromote(id: nat)
    | OpUnbind(id: nat)

  function Apply(r: Reg, op: Op): Reg {
    match op
    case OpInsert(key, meta, symbol, polymarket) => Insert(r, key, meta, symbol, polymarket).0
    case OpPair(base, timeframe, meta, symbol) => InsertPair(r, base, timeframe, meta, symbol).0
    case OpBindCurrent(id, w) => BindCurrent(r, id, w).0
    case OpBindNext(id, w) => BindNext(r, id, w).0
    case OpPromote(id) => Promote(r, id).0
    case OpUnbind(id) => Unbind(r, id).0
  }

  /** An accepted insert brings no window, and a bound token is held nowhere but in the slot it is
      bound to. Calls that fail are always fine. */
  predicate Legal(r: Reg, op: Op) {
    match op
    case OpInsert(key, meta, symbol, polymarket) =>
      Insert(r, key, meta, symbol, polymarket).1.Err? || EmptyBinding(polymarket)
    case OpBindCurrent(id, w) =>
      BindingFault(r, id).Some? || w.token !in r.byToken || w.token in TokenOf(BindingOf(r, id).current)
    case OpBindNext(id, w) =>
      BindingFault(r, id).Some? || w.token !in r.byToken || w.token in TokenOf(BindingOf(r, id).next)
    case _ => true
  }

  /** Each operation keeps the registry consistent exactly when it is legal. */
  lemma ApplyKeepsIff(r: Reg, op: Op)
    requires Inv(r)
    ensures Inv(Apply(r, op)) <==> Legal(r, op)
  {
    match op
    case OpInsert(key, meta, symbol, polymarket) =>
      if Insert(r, key, meta, symbol, polymarket).1.Ok? {
        InsertKeepsIff(r, key, meta, symbol, polymarket);
      } else {
        RefusedInsertKeeps(r, key, meta, symbol, polymarket);
      }
    case OpPair(base, timeframe, meta, symbol) => PairKeeps(r, base, timeframe, meta, symbol);
    case OpBindCurrent(id, w) => if BindingFault(r, id).None? { BindCurrentKeepsIff(r, id, w); }
    case OpBindNext(id, w) => if BindingFault(r, id).None? { BindNextKeepsIff(r, id, w); }
    case OpPromote(id) => PromoteKeeps(r, id);
    case OpUnbind(id) => UnbindKeeps(r, id);
  }

  /** A refused insert changes nothing but, perhaps, the next id. */
  lemma RefusedInsertKeeps(r: Reg, key: Key, meta: Meta, symbol: Option<string>, polymarket: Option<Binding>)
    requires Inv(r) && Insert(r, key, meta, symbol, polymarket).1.Err?
    ensures Inv(Insert(r, key, meta, symbol, polymarket).0)
  {
    var r' := Insert(r, key, meta, symbol, polymarket).0;
    assert forall id, t :: HoldsToken(r', id, t) <==> HoldsToken(r, id, t);
  }

  /** A pair is no insert, one insert or two. */
  lemma PairIsInserts(r: Reg, base: Asset, timeframe: Timeframe, meta: Meta, symbol: Option<string>)
    ensures var r' := InsertPair(r, base, timeframe, meta, symbol).0;
            var first := Insert(r, PredictionKey(base, timeframe, Up), meta, symbol, Some(Unbound)).0;
            r' == r || r' == first || r' == Insert(first, PredictionKey(base, timeframe, Down), meta, None, Some(Unbound)).0
  {}

  lemma PairKeeps(r: Reg, base: Asset, timeframe: Timeframe, meta: Meta, symbol: Option<string>)
    requires Inv(r)
    ensures Inv(InsertPair(r, base, timeframe, meta, symbol).0)
  {
    var first := Insert(r, PredictionKey(base, timeframe, Up), meta, symbol, Some(Unbound)).0;
    PairIsInserts(r, base, timeframe, meta, symbol);
    InsertKeeps(r, PredictionKey(base, timeframe, Up), meta, symbol, Some(Unbound));
    InsertKeeps(first, PredictionKey(base, timeframe, Down), meta, None, Some(Unbound));
  }

  function Execute(ops: seq<Op>): Reg {
    if ops == [] then Empty else Apply(Execute(ops[..|ops| - 1]), ops[|ops| - 1])
  }

  predicate LegalRun(ops: seq<Op>) {
    ops != [] ==> LegalRun(ops[..|ops| - 1]) && Legal(Execute(ops[..|ops| - 1]), ops[|ops| - 1])
  }

  /** Over every legal run, all indexes agree with the records. */
  lemma {:induction false} RunKeeps(ops: seq<Op>)
    requires LegalRun(ops)
    ensures Inv(Execute(ops))
  {
    if ops != [] {
      RunKeeps(ops[..|ops| - 1]);
      ApplyKeepsIff(Execute(ops[..|ops| - 1]), ops[|ops| - 1]);
    }
  }

  /** What no operation changes: ids of keys, and identity, metadata and symbol of records; and an
      id that appears is the next one in order. */
  ghost predicate Extends(r: Reg, r': Reg) {
    && (forall k :: k in r.byKey ==> k in r'.byKey && r'.byKey[k] == r.byKey[k])
    && (forall id :: id in r.byId ==> id in r'.byId && r'.byId[id].(polymarket := None) == r.byId[id].(polymarket := None))
    && (forall id :: id in r'.byId && id !in r.byId ==> r.nextId != 0 && r.nextId <= id)
    && (r.nextId == 0 ==> r'.nextId == 0) && (r'.nextId != 0 ==> r.nextId <= r'.nextId)
  }

  lemma InsertExtends(r: Reg, key: Key, meta: Meta, symbol: Option<string>, polymarket: Option<Binding>)
    requires IdsOk(r)
    ensures Extends(r, Insert(r, key, meta, symbol, polymarket).0) && IdsOk(Insert(r, key, meta, symbol, polymarket).0)
  {}

  lemma ExtendsTransitive(a: Reg, b: Reg, c: Reg)
    requires Extends(a, b) && Extends(b, c)
    ensures Extends(a, c)
  {}

  lemma RebindExtends(r: Reg, id: nat, b: Binding, byToken: map<string, nat>)
    requires IdsOk(r) && BindingFault(r, id).None?
    ensures Extends(r, WithBinding(r, id, b, byToken)) && IdsOk(WithBinding(r, id, b, byToken))
  {}

  lemma ApplyExtends(r: Reg, op: Op)
    requires IdsOk(r)
    ensures Extends(r, Apply(r, op)) && IdsOk(Apply(r, op))
  {
    match op
    case OpInsert(key, meta, symbol, polymarket) => InsertExtends(r, key, meta, symbol, polymarket);
    case OpPair(base, timeframe, meta, symbol) => PairExtends(r, base, timeframe, meta, symbol);
    case _ =>
      var r' := Apply(r, op);
      if r' != r { RebindExtends(r, op.id, BindingOf(r', op.id), r'.byToken); }
  }

  lemma PairExtends(r: Reg, base: Asset, timeframe: Timeframe, meta: Meta, symbol: Option<string>)
    requires IdsOk(r)
    ensures var r' := InsertPair(r, base, timeframe, meta, symbol).0; Extends(r, r') && IdsOk(r')
  {
    var up, down := PredictionKey(base, timeframe, Up), PredictionKey(base, timeframe, Down);
    var first := Insert(r, up, meta, symbol, Some(Unbound)).0;
    PairIsInserts(r, base, timeframe, meta, symbol);
    InsertExtends(r, up, meta, symbol, Some(Unbound));
    InsertExtends(first, down, meta, None, Some(Unbound));
    ExtendsTransitive(r, first, Insert(first, down, meta, None, Some(Unbound)).0);
  }

  /** Along every run, legal or not, a key keeps its id for ever and no id is handed out twice. */
  lemma {:induction false} IdentityIsStable(ops: seq<Op>, i: nat)
    requires i <= |ops|
    ensures Extends(Execute(ops[..i]), Execute(ops)) && IdsOk(Execute(ops))
    decreases |ops|
  {
    if i == |ops| {
      assert ops[..i] == ops;
      if ops != [] {
        IdentityIsStable(ops[..|ops| - 1], 0);
        ApplyExtends(Execute(ops[..|ops| - 1]), ops[|ops| - 1]);
      }
    } else {
      var init := ops[..|ops| - 1];
      IdentityIsStable(init, i);
      assert init[..i] == ops[..i];
      ApplyExtends(Execute(init), ops[|ops| - 1]);
      ExtendsTransitive(Execute(ops[..i]), Execute(init), Execute(ops));
    }
  }

  // ---- Windows and records over runs ----

  /** The instrument has a venue binding, so that windows can be bound to it. */
  predicate Bindable(r: Reg, id: nat) { BindingFault(r, id).None? }

  /** The window traded now, read from the operations: the last one bound as current or promoted from
      next, unless it was unbound since. */
  function CurrentBy(ops: seq<Op>, id: nat): Option<Window>
    decreases |ops|, 1
  {
    if ops == [] then None
    else
      var init, op := ops[..|ops| - 1], ops[|ops| - 1];
      var r := Execute(init);
      match op
      case OpBindCurrent(i, w) => if i == id && Bindable(r, id) then Some(w) else CurrentBy(init, id)
      case OpPromote(i) => if i == id && NextBy(init, id).Some? then NextBy(init, id) else CurrentBy(init, id)
      case OpUnbind(i) => if i == id then None else CurrentBy(init, id)
      case OpInsert(key, meta, symbol, binding) =>
        if Insert(r, key, meta, symbol, binding).1 == Ok(id) && binding.Some? then binding.value.current
        else CurrentBy(init, id)
      case _ => CurrentBy(init, id)
  }

  /** The window bound ahead: the last one bound as next, unless promoted or unbound since. */
  function NextBy(ops: seq<Op>, id: nat): Option<Window>
    decreases |ops|, 0
  {
    if ops == [] then None
    else
      var init, op := ops[..|ops| - 1], ops[|ops| - 1];
      var r := Execute(init);
      match op
      case OpBindNext(i, w) => if i == id && Bindable(r, id) then Some(w) else NextBy(init, id)
      case OpPromote(i) => if i == id then None else NextBy(init, id)
      case OpUnbind(i) => if i == id then None else NextBy(init, id)
      case OpInsert(key, meta, symbol, binding) =>
        if Insert(r, key, meta, symbol, binding).1 == Ok(id) && binding.Some? then binding.value.next
        else NextBy(init, id)
      case _ => NextBy(init, id)
  }

  /** What a record says of its windows; none without a record or binding. */
  function WindowsOf(r: Reg, id: nat): Binding { if Bindable(r, id) then BindingOf(r, id) else Unbound }

  /** What each operation does to the windows of each instrument. */
  lemma BindMoves(r: Reg, i: nat, w: Window, id: nat)
    ensures WindowsOf(BindCurrent(r, i, w).0, id)
         == if i == id && Bindable(r, id) then Binding(Some(w), WindowsOf(r, id).next) else WindowsOf(r, id)
    ensures WindowsOf(BindNext(r, i, w).0, id)
         == if i == id && Bindable(r, id) then Binding(WindowsOf(r, id).current, Some(w)) else WindowsOf(r, id)
  {}

  /** After a promotion the current window is the former next one and there is no next one; an
      unbinding leaves none; and no other record changes. */
  lemma PromoteMoves(r: Reg, i: nat, id: nat)
    ensures WindowsOf(Promote(r, i).0, id)
         == if i == id && WindowsOf(r, id).next.Some? then Binding(WindowsOf(r, id).next, None) else WindowsOf(r, id)
    ensures WindowsOf(Unbind(r, i).0, id) == if i == id then Unbound else WindowsOf(r, id)
  {}

  lemma InsertMoves(r: Reg, key: Key, meta: Meta, symbol: Option<string>, binding: Option<Binding>, id: nat)
    requires IdsOk(r)
    ensures var res := Insert(r, key, meta, symbol, binding);
            WindowsOf(res.0, id) == if res.1 == Ok(id) && binding.Some? then binding.value else WindowsOf(r, id)
  {}

  lemma PairMoves(r: Reg, base: Asset, timeframe: Timeframe, meta: Meta, symbol: Option<string>, id: nat)
    requires IdsOk(r)
    ensures WindowsOf(InsertPair(r, base, timeframe, meta, symbol).0, id) == WindowsOf(r, id)
  {
    var up, down := PredictionKey(base, timeframe, Up), PredictionKey(base, timeframe, Down);
    var first := Insert(r, up, meta, symbol, Some(Unbound)).0;
    PairIsInserts(r, base, timeframe, meta, symbol);
    InsertMoves(r, up, meta, symbol, Some(Unbound), id);
    InsertExtends(r, up, meta, symbol, Some(Unbound));
    InsertMoves(first, down, meta, None, Some(Unbound), id);
    NewIdHasNoWindows(r, id);
    NewIdHasNoWindows(first, id);
  }

  lemma NewIdHasNoWindows(r: Reg, id: nat)
    requires IdsOk(r)
    ensures id == r.nextId ==> WindowsOf(r, id) == Unbound
  {}

  /** Along every run, legal or not, the windows of every instrument are what the operations say. */
  lemma {:induction false} WindowsFollowOps(ops: seq<Op>, id: nat)
    ensures WindowsOf(Execute(ops), id) == Binding(CurrentBy(ops, id), NextBy(ops, id))
  {
    if ops != [] {
      var init, op := ops[..|ops| - 1], ops[|ops| - 1];
      var r := Execute(init);
      WindowsFollowOps(init, id);
      IdentityIsStable(init, 0);
      match op
      case OpInsert(key, meta, symbol, binding) => InsertMoves(r, key, meta, symbol, binding, id);
      case OpPair(base, timeframe, meta, symbol) => PairMoves(r, base, timeframe, meta, symbol, id);
      case OpBindCurrent(i, w) => BindMoves(r, i, w, id);
      case OpBindNext(i, w) => BindMoves(r, i, w, id);
      case OpPromote(i) => PromoteMoves(r, i, id);
      case OpUnbind(i) => PromoteMoves(r, i, id);
    }
  }

  /** So a token is found under an instrument exactly when the operations say that its window is
      current or next there. */
  lemma TokensFollowOps(ops: seq<Op>, token: string, id: nat)
    requires LegalRun(ops)
    ensures token in Execute(ops).byToken && Execute(ops).byToken[token] == id
       <==> token in TokenOf(CurrentBy(ops, id)) || token in TokenOf(NextBy(ops, id))
  {
    RunKeeps(ops);
    WindowsFollowOps(ops, id);
    assert HoldsToken(Execute(ops), id, token) <==>
           token in TokenOf(CurrentBy(ops, id)) || token in TokenOf(NextBy(ops, id));
  }

  /** What an instrument was inserted with. */
  datatype Origin = Origin(key: Key, meta: Meta, symbol: Option<string>, bindable: bool)

  /** The operation that brought the id in, and what it said. */
  function OriginBy(ops: seq<Op>, id: nat): Option<Origin> {
    if ops == [] then None
    else
      var init, op := ops[..|ops| - 1], ops[|ops| - 1];
      var r := Execute(init);
      if id in r.byId || id !in Execute(ops).byId then OriginBy(init, id)
      else
        match op
        case OpInsert(key, meta, symbol, binding) => Some(Origin(key, meta, symbol, binding.Some?))
        case OpPair(base, timeframe, meta, symbol) =>
          if id == r.nextId then Some(Origin(PredictionKey(base, timeframe, Up), meta, symbol, true))
          else Some(Origin(PredictionKey(base, timeframe, Down), meta, None, true))
        case _ => None
  }

  function OriginOf(r: Reg, id: nat): Option<Origin> {
    if id in r.byId then
      var c := r.byId[id];
      Some(Origin(c.key, c.meta, c.symbol, c.polymarket.Some?))
    else None
  }

  lemma InsertOrigin(r: Reg, key: Key, meta: Meta, symbol: Option<string>, binding: Option<Binding>, id: nat)
    requires IdsOk(r)
    ensures var r' := Insert(r, key, meta, symbol, binding).0;
            && (id in r.byId ==> OriginOf(r', id) == OriginOf(r, id))
            && (id in r'.byId && id !in r.byId ==> id == r.nextId && OriginOf(r', id) == Some(Origin(key, meta, symbol, binding.Some?)))
  {}

  lemma PairOrigin(r: Reg, base: Asset, timeframe: Timeframe, meta: Meta, symbol: Option<string>, id: nat)
    requires IdsOk(r)
    ensures var r' := InsertPair(r, base, timeframe, meta, symbol).0;
            && (id in r.byId ==> OriginOf(r', id) == OriginOf(r, id))
            && (id in r'.byId && id !in r.byId ==>
                  OriginOf(r', id) == Some(if id == r.nextId then Origin(PredictionKey(base, timeframe, Up), meta, symbol, true)
                                           else Origin(PredictionKey(base, timeframe, Down), meta, None, true)))
  {
    var up, down := PredictionKey(base, timeframe, Up), PredictionKey(base, timeframe, Down);
    var first := Insert(r, up, meta, symbol, Some(Unbound)).0;
    if !PairRefused(r, base, timeframe, symbol) && r.nextId != 0 {
      PairByIds(r, base, timeframe, meta, symbol);
      InsertOrigin(r, up, meta, symbol, Some(Unbound), id);
      InsertExtends(r, up, meta, symbol, Some(Unbound));
      InsertOrigin(first, down, meta, None, Some(Unbound), id);
    }
  }

  lemma RebindOrigin(r: Reg, op: Op, id: nat)
    requires !op.OpInsert? && !op.OpPair?
    ensures OriginOf(Apply(r, op), id) == OriginOf(r, id)
  {}

  /** Along every run, legal or not, each instrument keeps the key, metadata and symbol it was inserted with. */
  lemma {:induction false} RecordsFollowOps(ops: seq<Op>, id: nat)
    ensures OriginOf(Execute(ops), id) == OriginBy(ops, id)
  {
    if ops != [] {
      var init, op := ops[..|ops| - 1], ops[|ops| - 1];
      var r := Execute(init);
      RecordsFollowOps(init, id);
      IdentityIsStable(init, 0);
      match op
      case OpInsert(key, meta, symbol, binding) => InsertOrigin(r, key, meta, symbol, binding, id);
      case OpPair(base, timeframe, meta, symbol) => PairOrigin(r, base, timeframe, meta, symbol, id);
      case _ => RebindOrigin(r, op, id);
    }
  }

  // ---- Which calls fail, and why ----

  predicate HasKey(r: Reg, id: nat, key: Key) { id in r.byId && r.byId[id].key == key }
  predicate HasSymbol(r: Reg, id: nat, symbol: string) { id in r.byId && r.byId[id].symbol == Some(symbol) }

  /** The result of an insert, in terms of the records: a key in use is refused first, then exhaustion,
      then a symbol in use. */
  lemma InsertResult(r: Reg, key: Key, meta: Meta, symbol: Option<string>, binding: Option<Binding>)
    requires Inv(r)
    ensures var res := Insert(r, key, meta, symbol, binding).1;
            var keyUsed := exists id :: HasKey(r, id, key);
            var symbolUsed := symbol.Some? && exists id :: HasSymbol(r, id, symbol.value);
            && (res == Err(DuplicateInstrumentKey) <==> keyUsed)
            && (res == Err(IdSpaceExhausted) <==> !keyUsed && r.nextId == 0)
            && (symbol.Some? ==> (res == Err(DuplicateBinanceSymbol(symbol.value)) <==> !keyUsed && r.nextId != 0 && symbolUsed))
            && (res == Ok(r.nextId) <==> !keyUsed && r.nextId != 0 && !symbolUsed)
  {
    if key in r.byKey { assert HasKey(r, r.byKey[key], key); }
    if symbol.Some? && symbol.value in r.bySymbol { assert HasSymbol(r, r.bySymbol[symbol.value], symbol.value); }
  }

  /** Along every run, what the binding operations answer: an id that was never inserted is missing, one
      inserted without a binding cannot be bound, and promotion needs a next window. */
  lemma BindingResults(ops: seq<Op>, id: nat, w: Window)
    ensures var r, origin := Execute(ops), OriginBy(ops, id);
            var fault := if origin.None? then Err(MissingInstrument(id))
                         else if !origin.value.bindable then Err(MissingPolymarketBinding(id)) else Ok(());
            && BindCurrent(r, id, w).1 == BindNext(r, id, w).1 == Unbind(r, id).1 == fault
            && Promote(r, id).1 == (if fault.Ok? && NextBy(ops, id).None? then Err(NoNextWindow(id)) else fault)
  {
    RecordsFollowOps(ops, id);
    WindowsFollowOps(ops, id);
  }

  // ---- Pairs are atomic, except at the end of the id space ----

  /** The same records and indexes; the next id may differ. */
  predicate SameEntries(r: Reg, r': Reg) {
    r'.byId == r.byId && r'.byKey == r.byKey && r'.bySymbol == r.bySymbol && r'.byToken == r.byToken
  }

  /** The registry with both records of a pair. */
  function WithPair(r: Reg, up: Record, down: Record, nextId: nat): Reg {
    Reg(r.byId[up.id := up][down.id := down], r.byKey[up.key := up.id][down.key := down.id],
        if up.symbol.Some? then r.bySymbol[up.symbol.value := up.id] else r.bySymbol, r.byToken, nextId)
  }

  /** The pre-checks turn the pair down. */
  predicate PairRefused(r: Reg, base: Asset, timeframe: Timeframe, symbol: Option<string>) {
    || PredictionKey(base, timeframe, Up) in r.byKey || PredictionKey(base, timeframe, Down) in r.byKey
    || (symbol.Some? && symbol.value in r.bySymbol)
  }

  /** A pair goes in whole, records and indexes alike; and a failed one adds nothing at all exactly
      unless it passed the pre-checks with a single id left. */
  lemma PairAtomicIff(r: Reg, base: Asset, timeframe: Timeframe, meta: Meta, symbol: Option<string>)
    requires IdsOk(r)
    ensures var res := InsertPair(r, base, timeframe, meta, symbol);
            && (res.1.Ok? ==>
                  && res.1.value == (r.nextId, r.nextId + 1)
                  && res.0 == WithPair(r,
                                Record(r.nextId, PredictionKey(base, timeframe, Up), meta, symbol, Some(Unbound)),
                                Record(r.nextId + 1, PredictionKey(base, timeframe, Down), meta, None, Some(Unbound)),
                                res.0.nextId))
            && (res.1.Err? ==> (SameEntries(r, res.0) <==> PairRefused(r, base, timeframe, symbol) || r.nextId != ID_SPACE - 1))
  {
    if r.nextId != 0 && !PairRefused(r, base, timeframe, symbol) {
      PairByIds(r, base, timeframe, meta, symbol);
    }
  }

  /** A pair that passes the pre-checks: the first insert succeeds, the second if an id is left. */
  lemma PairByIds(r: Reg, base: Asset, timeframe: Timeframe, meta: Meta, symbol: Option<string>)
    requires IdsOk(r) && r.nextId != 0 && !PairRefused(r, base, timeframe, symbol)
    ensures var up := PredictionKey(base, timeframe, Up);
            var first := Insert(r, up, meta, symbol, Some(Unbound));
            var res := InsertPair(r, base, timeframe, meta, symbol);
            && first.1 == Ok(r.nextId) && up in first.0.byKey && up !in r.byKey
            && (r.nextId == ID_SPACE - 1 ==> res == (first.0, Err(IdSpaceExhausted)))
            && (r.nextId != ID_SPACE - 1 ==> res.1 == Ok((r.nextId, r.nextId + 1)) && first.0.nextId == r.nextId + 1)
  {}

  /** Re-binding a token that another instrument holds, then moving on, loses that instrument's token. */
  lemma SharedTokenIsLost(r: Reg, a: nat, b: nat, w: Window, v: Window)
    requires Inv(r) && a != b && BindingFault(r, a).None? && BindingFault(r, b).None?
    requires w.token in TokenOf(BindingOf(r, a).current) && v.token !in r.byToken
    ensures var r1 := BindCurrent(r, b, w).0;
            var r2 := BindCurrent(r1, b, v).0;
            HoldsToken(r2, a, w.token) && w.token !in r2.byToken
  {
    assert HoldsToken(r, a, w.token);
  }

  // ---- Runs that break the indexes ----

  const SampleWindow: Window := Window("t", "s", 0, 1, None)
  const SampleMeta: Meta := Meta(1, 1)
  const SpotKey: Key := Key(Spot, Btc, None, None, None)
  const PerpKey: Key := Key(Perp, Btc, None, None, None)

  lemma ExecuteNext(ops: seq<Op>, op: Op)
    ensures Execute(ops + [op]) == Apply(Execute(ops), op)
    ensures LegalRun(ops + [op]) <==> LegalRun(ops) && Legal(Execute(ops), op)
  {
    assert (ops + [op])[..|ops|] == ops;
  }

  /** The first insert brings a window whose token nothing indexes. */
  lemma InsertedWindowBreaksIndex()
    ensures !Inv(Execute([OpInsert(SpotKey, SampleMeta, None, Some(Binding(Some(SampleWindow), None)))]))
  {
    var op := OpInsert(SpotKey, SampleMeta, None, Some(Binding(Some(SampleWindow), None)));
    ExecuteNext([], op);
    assert [] + [op] == [op];
    RunKeeps([]);
    ApplyKeepsIff(Empty, op);
  }

  /** The registry after one pair is inserted and its first instrument bound. */
  lemma AfterBoundPair()
    ensures var ops := [OpPair(Btc, M5, SampleMeta, None), OpBindCurrent(1, SampleWindow)];
            LegalRun(ops) && SampleWindow.token in Execute(ops).byToken
            && BindingFault(Execute(ops), 2).None? && BindingOf(Execute(ops), 2) == Unbound
  {
    var pair, bind := OpPair(Btc, M5, SampleMeta, None), OpBindCurrent(1, SampleWindow);
    ExecuteNext([], pair);
    assert [] + [pair] == [pair];
    ExecuteNext([pair], bind);
    assert [pair] + [bind] == [pair, bind];
    PairByIds(Empty, Btc, M5, SampleMeta, None);
    PairAtomicIff(Empty, Btc, M5, SampleMeta, None);
  }

  /** Binding one token to both instruments of a pair breaks the index. */
  lemma SharedTokenBreaksIndex()
    ensures !Inv(Execute([OpPair(Btc, M5, SampleMeta, None), OpBindCurrent(1, SampleWindow), OpBindCurrent(2, SampleWindow)]))
  {
    var ops := [OpPair(Btc, M5, SampleMeta, None), OpBindCurrent(1, SampleWindow)];
    AfterBoundPair();
    RunKeeps(ops);
    ApplyKeepsIff(Execute(ops), OpBindCurrent(2, SampleWindow));
    ExecuteNext(ops, OpBindCurrent(2, SampleWindow));
    assert ops + [OpBindCurrent(2, SampleWindow)]
        == [OpPair(Btc, M5, SampleMeta, None), OpBindCurrent(1, SampleWindow), OpBindCurrent(2, SampleWindow)];
  }

  /** One instrument with a symbol, then `k` inserts that are refused for that symbol. */
  function Burning(k: nat): seq<Op> {
    if k == 0 then [OpInsert(SpotKey, SampleMeta, Some("x"), None)]
    else Burning(k - 1) + [OpInsert(PerpKey, SampleMeta, Some("x"), None)]
  }

  /** An insert that is refused for its symbol uses up an id. */
  lemma RefusedInsertBurnsId(r: Reg, key: Key, symbol: string)
    requires key !in r.byKey && symbol in r.bySymbol && 0 < r.nextId < ID_SPACE - 1
    ensures Apply(r, OpInsert(key, SampleMeta, Some(symbol), None)) == r.(nextId := r.nextId + 1)
    ensures Legal(r, OpInsert(key, SampleMeta, Some(symbol), None))
  {}

  lemma FirstInsert()
    ensures var r := Apply(Empty, OpInsert(SpotKey, SampleMeta, Some("x"), None));
            r.nextId == 2 && r.byKey == map[SpotKey := 1] && r.bySymbol == map["x" := 1]
    ensures Legal(Empty, OpInsert(SpotKey, SampleMeta, Some("x"), None))
  {}

  lemma {:induction false} BurningIds(k: nat)
    requires k + 2 < ID_SPACE
    ensures LegalRun(Burning(k))
    ensures var r := Execute(Burning(k)); r.nextId == k + 2 && r.byKey == map[SpotKey := 1] && r.bySymbol == map["x" := 1]
  {
    if k == 0 {
      FirstInsert();
      ExecuteNext([], OpInsert(SpotKey, SampleMeta, Some("x"), None));
      assert [] + Burning(0) == Burning(0);
    } else {
      BurningIds(k - 1);
      RefusedInsertBurnsId(Execute(Burning(k - 1)), PerpKey, "x");
      ExecuteNext(Burning(k - 1), OpInsert(PerpKey, SampleMeta, Some("x"), None));
    }
  }

  /** After a legal run of refused inserts that leaves one id, a pair goes in by half. */
  lemma HalfPairIsReachable()
    ensures var ops := Burning(ID_SPACE - 3);
            var r := Execute(ops + [OpPair(Btc, M5, SampleMeta, None)]);
            && LegalRun(ops)
            && PredictionKey(Btc, M5, Up) in r.byKey && PredictionKey(Btc, M5, Down) !in r.byKey
  {
    var ops := Burning(ID_SPACE - 3);
    BurningIds(ID_SPACE - 3);
    RunKeeps(ops);
    PairByIds(Execute(ops), Btc, M5, SampleMeta, None);
    ExecuteNext(ops, OpPair(Btc, M5, SampleMeta, None));
  }
}
