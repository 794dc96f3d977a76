/** The wallet carousel: a hydration gate local to each view instance, and the
    ordered list of carousel items it renders once the gate is open. */
module WalletCarousel {
  import opened WalletTypes

  /** The view's "DOM loaded" flag as a two-state machine. */
  datatype GateState = Unhydrated | Hydrated

  /** A freshly constructed view has not been mounted yet. */
  const InitialGate: GateState := Unhydrated

  /** What can happen to a mounted view: the mount effect fires, or the view
      renders again (for instance because the registry changed). */
  datatype Event = MountEffect | Rerender

  /** The mount effect: the only transition, and it only ever opens the gate. */
  function Mount(g: GateState): (r: GateState)
    ensures r.Hydrated?
  {
    Hydrated
  }

  /** The gate after one event. */
  function Step(g: GateState, e: Event): (r: GateState)
    ensures g.Hydrated? ==> r.Hydrated?
    ensures r.Hydrated? <==> g.Hydrated? || e == MountEffect
  {
    match e
    case MountEffect => Mount(g)
    case Rerender => g
  }

  /** The gate after a sequence of events. */
  function Run(g: GateState, events: seq<Event>): GateState
    decreases |events|
  {
    if |events| == 0 then g else Run(Step(g, events[0]), events[1..])
  }

  /** The gate is open after a sequence of events exactly when it was open
      before, or the mount effect occurred among them. */
  lemma {:induction false} OpenIffMounted(g: GateState, events: seq<Event>)
    ensures Run(g, events) == Hydrated <==> g == Hydrated || MountEffect in events
    decreases |events|
  {
    if |events| > 0 {
      OpenIffMounted(Step(g, events[0]), events[1..]);
      assert events == [events[0]] + events[1..];
    }
  }

  /** One carousel entry: a wallet card, or the trailing add-wallet card. */
  datatype Item = WalletItem(wallet: Wallet) | AddItem

  /** `wallets.map(...)`: one wallet card per wallet, in registry order. */
  function WalletItems(wallets: seq<Wallet>): (r: seq<Item>)
    ensures |r| == |wallets|
    ensures forall i :: 0 <= i < |wallets| ==> r[i] == WalletItem(wallets[i])
  {
    if |wallets| == 0 then [] else [WalletItem(wallets[0])] + WalletItems(wallets[1..])
  }

  /** What the view renders: nothing while the gate is closed; otherwise one
      card per wallet in registry order followed by a single add card. */
  function Render(g: GateState, wallets: seq<Wallet>): (r: seq<Item>)
    ensures g == Unhydrated ==> r == []
    ensures g == Hydrated ==> |r| == |wallets| + 1
    ensures g == Hydrated ==> forall i :: 0 <= i < |wallets| ==> r[i] == WalletItem(wallets[i])
    ensures g == Hydrated ==> r[|wallets|] == AddItem
  {
    match g
    case Unhydrated => []
    case Hydrated => WalletItems(wallets) + [AddItem]
  }

  /** The wallets a rendered list shows, in order. */
  function ShownWallets(items: seq<Item>): seq<Wallet>
  {
    if |items| == 0 then []
    else (if items[0].WalletItem? then [items[0].wallet] else []) + ShownWallets(items[1..])
  }

  /** The number of add cards in a rendered list. */
  function AddCards(items: seq<Item>): nat
  {
    if |items| == 0 then 0
    else (if items[0] == AddItem then 1 else 0) + AddCards(items[1..])
  }

  lemma {:induction false} ShownWalletsAppend(a: seq<Item>, b: seq<Item>)
    ensures ShownWallets(a + b) == ShownWallets(a) + ShownWallets(b)
    ensures AddCards(a + b) == AddCards(a) + AddCards(b)
  {
    if |a| > 0 {
      ShownWalletsAppend(a[1..], b);
      assert (a + b)[1..] == a[1..] + b;
    } else {
      assert a + b == b;
    }
  }

  lemma {:induction false} WalletItemsShowWallets(wallets: seq<Wallet>)
    ensures ShownWallets(WalletItems(wallets)) == wallets
    ensures AddCards(WalletItems(wallets)) == 0
  {
    if |wallets| > 0 {
      WalletItemsShowWallets(wallets[1..]);
      ShownWalletsAppend([WalletItem(wallets[0])], WalletItems(wallets[1..]));
      assert wallets == [wallets[0]] + wallets[1..];
    }
  }

  /** A hydrated view shows exactly the registry, in order and nothing else,
      plus exactly one add card. */
  lemma RenderShowsRegistry(wallets: seq<Wallet>)
    ensures ShownWallets(Render(Hydrated, wallets)) == wallets
    ensures AddCards(Render(Hydrated, wallets)) == 1
  {
    WalletItemsShowWallets(wallets);
    ShownWalletsAppend(WalletItems(wallets), [AddItem]);
  }

  /** Until the mount effect fires, a view renders nothing, whatever the
      registry holds; after it has fired, the view shows the whole registry. */
  lemma ViewBeforeAndAfterMount(events: seq<Event>, wallets: seq<Wallet>)
    ensures MountEffect !in events ==> Render(Run(InitialGate, events), wallets) == []
    ensures MountEffect in events ==> ShownWallets(Render(Run(InitialGate, events), wallets)) == wallets
  {
    OpenIffMounted(InitialGate, events);
    RenderShowsRegistry(wallets);
  }
}
