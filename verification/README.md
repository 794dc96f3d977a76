# swift-wallet dashboard: wallet validation, creation step and carousel gate

A Dafny model of the logic in the swift-wallet dashboard's two wallet components.

- **Add-wallet form** (`components/dashboard/add_wallet.tsx`). The schema checks a candidate wallet. The name must be 2 to 20 characters long. It must differ exactly from every name in the registry read from the application context. The optional initial balance must be at least 0. The schema reports every violated rule as an issue. On submit, the form builds the record `{name, balance: initialBalance ?? 0}`. It reads the signed-in user's id, which throws when nobody is signed in. It then sends the record to the remote create call. A call that answers true or false is followed by exactly one success or error notification. A rejected call throws with no notification. Only a success resets the form and closes the dialog.
- **Wallet carousel** (`components/dashboard/wallet_carousel.tsx`). A view-local "DOM loaded" flag starts false. The mount effect sets it to true, and nothing sets it back. While the flag is false the view renders nothing. Once it is true, the view lists one card per wallet in registry order, followed by one "add wallet" card.

Files:
- `wallet_types.dfy` (module `WalletTypes`) holds `Option` (with `GetOr` for `??`), `Wallet` and the name bounds. It also holds the registry invariant `ValidRegistry`: every wallet is well formed and names are pairwise distinct.
- `add_wallet.dfy` (module `AddWallet`) holds the schema (`Validate`, `ValidateForm`), the record (`MakeWallet`), and the dialog and submit step (`Dialog`, `CloseDialog`, `Submit`).
- `wallet_carousel.dfy` (module `WalletCarousel`) holds the gate (`GateState`, `Mount`, `Step`, `Run`) and the rendered list (`Render`).

Modelling choices:
- The remote create call is not modelled. How it settles is the `outcome` parameter of `Submit`: it answers true (`Created`), answers false (`Failed`), or its promise is rejected (`Rejected`). Whether a user is signed in is the `signedIn` parameter. The model never states how the remote side changes the registry. The resubmission property is stated for any later registry that holds the committed record.
- The balance is a `real` that has already been coerced from the input text.
- A name's length is `|name|` over `seq<char>`. The JavaScript code counts UTF-16 code units.
- A form field that was never filled in is `None`, like JavaScript's `undefined`. An unset name fails the schema's string type check with "Required". That check stops the other name rules, but the balance is still checked (`ValidateForm`).
- A failed length rule does not stop the uniqueness rule from running. So a short name that is also taken gets both errors.
- The too-long rule uses the limit 20, as the code does. Its message still says "Max. 25 characters", and `FieldError.Message` keeps that text as written.

## Model

| member | source | states |
|---|---|---|
| AddWallet.EveryNameDiffers | components/dashboard/add_wallet.tsx:89-91 | the element-by-element `every` scan is true exactly when no wallet of the registry has that name |
| AddWallet.NameErrors | components/dashboard/add_wallet.tsx:85-91 | a name is too short iff it has fewer than 2 characters, too long iff it has more than 20, and not unique iff some registry wallet has exactly that name; it never yields a balance error |
| AddWallet.BalanceErrors | components/dashboard/add_wallet.tsx:92-95 | an absent balance is accepted; a present one is refused, with the balance error only, exactly when it is below 0 |
| AddWallet.Validate | components/dashboard/add_wallet.tsx:84-96 | each of the four rule errors is present exactly when its rule is violated: length below 2, length above 20, name held by some registry wallet (case-sensitive), present balance below 0 |
| AddWallet.MakeWallet | components/dashboard/add_wallet.tsx:103-106 | the record has the submitted name; its balance is the initial balance when given and 0 when it was left out |
| AddWallet.NameVerdictIgnoresBalance | components/dashboard/add_wallet.tsx:84-96 | the errors on the name field are the same whatever the balance |
| AddWallet.BalanceVerdictIgnoresName | components/dashboard/add_wallet.tsx:84-96 | the errors on the balance field are the same whatever the name and whatever the registry |
| AddWallet.AcceptedIffAppendKeepsRegistryValid | components/dashboard/add_wallet.tsx:84-106 | for a valid registry, a candidate passes validation exactly when appending its record keeps the registry valid (well-formed wallets, distinct names) |
| AddWallet.DuplicateNameRejected | components/dashboard/add_wallet.tsx:89-91 | a name equal to the name of any registry wallet is refused with the uniqueness error, whatever the balance |
| AddWallet.ValidateForm | components/dashboard/add_wallet.tsx:84-96 | an unset name gives exactly the "Required" error on the name field, and the balance is still checked; a filled-in name gives exactly the schema's verdict |
| AddWallet.CloseDialog | components/dashboard/add_wallet.tsx:125-128 | closing leaves the dialog shut with every form field unset |
| AddWallet.Submit | components/dashboard/add_wallet.tsx:102-128 | a record is sent iff the form passes validation and a user is signed in, and it is the record built from the form; the handler throws iff the form is valid and either nobody is signed in or the call is rejected; a notification is raised iff a record was sent and the call answered, the success toast iff it answered true and the error toast iff it answered false; only success closes and resets the dialog, otherwise the dialog and form are unchanged |
| AddWallet.SentRecordWellFormed | components/dashboard/add_wallet.tsx:84-112 | every record sent for creation has a name of 2 to 20 characters, a balance of at least 0, and a name no registry wallet holds |
| AddWallet.RetryAfterFailureSendsSameRecord | components/dashboard/add_wallet.tsx:107-122 | after a create that answered false or was rejected, submitting again against the same registry sends the same record |
| AddWallet.ResubmitAfterCommitRejected | components/dashboard/add_wallet.tsx:82-113 | once a committed record is in the registry, submitting the same form again is refused for uniqueness, with nothing sent and no notification |
| AddWallet.SubmitAfterResetRefused | components/dashboard/add_wallet.tsx:125-128 | after a reset, submitting straight away is refused with "Required" only, and no notification is raised |
| AddWallet.DuplicateCashRefused | components/dashboard/add_wallet.tsx:89-91 | with "Cash" in the registry, submitting "Cash" gives the uniqueness error only and leaves the dialog unchanged |
| AddWallet.SavingsCreatedWithZeroBalance | components/dashboard/add_wallet.tsx:102-117 | "Savings" with no balance, in an empty registry, is sent with balance 0; on success the dialog closes with the success notification |
| AddWallet.TooLongMessageSaysTwentyFive | components/dashboard/add_wallet.tsx:88 | a 21-character name is refused as too long, and the message for that error names 25 as the limit |
| AddWallet.NegativeBalanceOnlyError | components/dashboard/add_wallet.tsx:84-96 | "Ab" with balance -5 against a registry holding "A" gets the balance error only |
| WalletCarousel.Mount | components/dashboard/wallet_carousel.tsx:24-26 | mounting always leaves the gate open |
| WalletCarousel.Step | components/dashboard/wallet_carousel.tsx:21-26 | after one event the gate is open iff it was open before or the event is the mount effect, so no event closes it |
| WalletCarousel.OpenIffMounted | components/dashboard/wallet_carousel.tsx:21-26 | after a sequence of events the gate is open iff it started open or the mount effect occurred in the sequence; so once open it stays open |
| WalletCarousel.WalletItems | components/dashboard/wallet_carousel.tsx:50-57 | there is one wallet card per wallet, and the card at index i shows wallet i |
| WalletCarousel.Render | components/dashboard/wallet_carousel.tsx:28-63 | a closed gate renders nothing, whatever the registry; an open gate renders registry-size + 1 items, item i shows wallet i, and the last item is the add card |
| WalletCarousel.RenderShowsRegistry | components/dashboard/wallet_carousel.tsx:50-63 | once open, the view shows exactly the registry, in order, and exactly one add card |
| WalletCarousel.ViewBeforeAndAfterMount | components/dashboard/wallet_carousel.tsx:21-30 | a new view that has not seen the mount effect renders nothing; after it has, the view shows the whole registry |

## Left out

- The remote create call (`createWallet`): its source is not part of this model. Its answer is an input, and the model states nothing about how it updates the registry.
- Input coercion (`z.coerce.number()`): JavaScript's `Number()`, NaN, an empty string coercing to 0, and IEEE floating point are not modelled. The balance arrives already parsed as a `real`.
- The schema library, the form library and its resolver: their rules are modelled directly, and `errors` is the schema's full set of issues. Their parsing pipeline is not modelled. Neither is the form library's default of showing only the first issue per field, so a short name that is also taken shows only "Min. 2 characters".
- String length in UTF-16 code units: a name is a `seq<char>`, and its length is the number of elements.
- All rendering is left out: dialogs, cards, carousel widgets, buttons, styles, icons, item keys and toast display. A notification is only its kind, title and description.
- The dialog component drops the form's state when it closes. Only the reset done by the form's close handler is modelled.
- React effect scheduling and the mechanics of server-side rendering and hydration are left out. Only the two-state gate is modelled.
- Concurrent submissions while a create call is in flight: the code has no guard against them, and they are a concurrency matter outside this sequential model.
