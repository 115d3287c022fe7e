/**
 The five tables of the application as immutable records: users, properties,
 user wallets, user property shares and transactions, with their enumerated
 columns, their text encodings and the defaults the database fills in.
 Money amounts are text columns; areas and counts are integer columns.
 Nullable columns are `Option`s; a timestamp is an abstract instant (a natural number).
 */
module Schema {
  import opened Wrappers

  type Timestamp = nat

  /** `users.role`. */
  datatype Role = User | Admin

  /** `properties.status`. */
  datatype PropertyStatus = Available | SoldOut | Pending

  /** `transactions.transactionType`. */
  datatype TransactionType = Buy | Sell

  /** `transactions.status`. */
  datatype TransactionStatus = Pending | Completed | Failed

  function RoleText(r: Role): string {
    match r
    case User => "user"
    case Admin => "admin"
  }

  function PropertyStatusText(s: PropertyStatus): string {
    match s
    case Available => "available"
    case SoldOut => "sold_out"
    case Pending => "pending"
  }

  function TransactionTypeText(t: TransactionType): string {
    match t
    case Buy => "buy"
    case Sell => "sell"
  }

  function TransactionStatusText(s: TransactionStatus): string {
    match s
    case Pending => "pending"
    case Completed => "completed"
    case Failed => "failed"
  }

  /** A `role` enum column accepts exactly the two role names. */
  function ParseRole(text: string): (r: Option<Role>)
    ensures r.Some? <==> text == "user" || text == "admin"
    ensures r.Some? ==> RoleText(r.value) == text
  {
    if text == "user" then Some(User)
    else if text == "admin" then Some(Admin)
    else None
  }

  /** A property `status` enum column accepts exactly the three status names. */
  function ParsePropertyStatus(text: string): (r: Option<PropertyStatus>)
    ensures r.Some? <==> text == "available" || text == "sold_out" || text == "pending"
    ensures r.Some? ==> PropertyStatusText(r.value) == text
  {
    if text == "available" then Some(Available)
    else if text == "sold_out" then Some(SoldOut)
    else if text == "pending" then Some(PropertyStatus.Pending)
    else None
  }

  /** A `transactionType` enum column accepts exactly `buy` and `sell`. */
  function ParseTransactionType(text: string): (r: Option<TransactionType>)
    ensures r.Some? <==> text == "buy" || text == "sell"
    ensures r.Some? ==> TransactionTypeText(r.value) == text
  {
    if text == "buy" then Some(Buy)
    else if text == "sell" then Some(Sell)
    else None
  }

  /** A transaction `status` enum column accepts exactly the three status names. */
  function ParseTransactionStatus(text: string): (r: Option<TransactionStatus>)
    ensures r.Some? <==> text == "pending" || text == "completed" || text == "failed"
    ensures r.Some? ==> TransactionStatusText(r.value) == text
  {
    if text == "pending" then Some(TransactionStatus.Pending)
    else if text == "completed" then Some(Completed)
    else if text == "failed" then Some(Failed)
    else None
  }

  /** Every enumerated value is read back from its own name. */
  lemma EnumTextRoundTrip(r: Role, p: PropertyStatus, t: TransactionType, s: TransactionStatus)
    ensures ParseRole(RoleText(r)) == Some(r)
    ensures ParsePropertyStatus(PropertyStatusText(p)) == Some(p)
    ensures ParseTransactionType(TransactionTypeText(t)) == Some(t)
    ensures ParseTransactionStatus(TransactionStatusText(s)) == Some(s)
  {
  }

  datatype UserRow = UserRow(
    id: int,
    openId: string,
    name: Option<string>,
    email: Option<string>,
    loginMethod: Option<string>,
    role: Role,
    createdAt: Timestamp,
    updatedAt: Timestamp,
    lastSignedIn: Timestamp)

  datatype PropertyRow = PropertyRow(
    id: int,
    title: string,
    description: Option<string>,
    location: string,
    totalArea: int,
    totalPrice: string,
    pricePerSqft: string,
    minShareSize: int,
    totalShares: int,
    soldShares: int,
    imageUrl: Option<string>,
    propertyType: string,
    status: PropertyStatus,
    createdAt: Timestamp,
    updatedAt: Timestamp)

  datatype WalletRow = WalletRow(
    id: int,
    userId: int,
    walletAddress: string,
    balance: string,
    balanceInRupees: string,
    cryptoType: string,
    createdAt: Timestamp,
    updatedAt: Timestamp)

  datatype ShareRow = ShareRow(
    id: int,
    userId: int,
    propertyId: int,
    sharesOwned: int,
    investmentAmount: string,
    cryptoInvested: string,
    purchaseDate: Timestamp,
    transactionHash: Option<string>,
    createdAt: Timestamp,
    updatedAt: Timestamp)

  datatype TransactionRow = TransactionRow(
    id: int,
    userId: int,
    propertyId: int,
    transactionType: TransactionType,
    sharesAmount: int,
    amountInRupees: string,
    cryptoAmount: string,
    exchangeRate: string,
    transactionHash: Option<string>,
    status: TransactionStatus,
    createdAt: Timestamp,
    updatedAt: Timestamp)

  /** The values an insert into `properties` supplies; `None` leaves the column to its default. */
  datatype PropertyInsert = PropertyInsert(
    title: string,
    description: Option<string>,
    location: string,
    totalArea: int,
    totalPrice: string,
    pricePerSqft: string,
    minShareSize: Option<int>,
    totalShares: int,
    soldShares: Option<int>,
    imageUrl: Option<string>,
    propertyType: string,
    status: Option<PropertyStatus>)

  /** The values an insert into `userWallets` supplies; `None` leaves the column to its default. */
  datatype WalletInsert = WalletInsert(
    userId: int,
    walletAddress: string,
    balance: Option<string>,
    balanceInRupees: Option<string>,
    cryptoType: Option<string>)

  /** The values an insert into `userPropertyShares` supplies. */
  datatype ShareInsert = ShareInsert(
    userId: int,
    propertyId: int,
    sharesOwned: int,
    investmentAmount: string,
    cryptoInvested: string,
    purchaseDate: Option<Timestamp>,
    transactionHash: Option<string>)

  /** The values an insert into `transactions` supplies. */
  datatype TransactionInsert = TransactionInsert(
    userId: int,
    propertyId: int,
    transactionType: TransactionType,
    sharesAmount: int,
    amountInRupees: string,
    cryptoAmount: string,
    exchangeRate: string,
    transactionHash: Option<string>,
    status: Option<TransactionStatus>)

  /** The row the database stores for a property insert, given its auto-increment id and the time. */
  function NewProperty(ins: PropertyInsert, id: int, now: Timestamp): (p: PropertyRow)
    ensures p.id == id && p.createdAt == now && p.updatedAt == now
    ensures p.minShareSize == (if ins.minShareSize.Some? then ins.minShareSize.value else 1)
    ensures p.soldShares == (if ins.soldShares.Some? then ins.soldShares.value else 0)
    ensures p.status == (if ins.status.Some? then ins.status.value else Available)
    ensures p.title == ins.title && p.location == ins.location && p.totalShares == ins.totalShares
    ensures p.pricePerSqft == ins.pricePerSqft && p.propertyType == ins.propertyType
    ensures p.description == ins.description && p.totalArea == ins.totalArea
    ensures p.totalPrice == ins.totalPrice && p.imageUrl == ins.imageUrl
  {
    PropertyRow(
      id, ins.title, ins.description, ins.location, ins.totalArea, ins.totalPrice,
      ins.pricePerSqft, ins.minShareSize.GetOr(1), ins.totalShares, ins.soldShares.GetOr(0),
      ins.imageUrl, ins.propertyType, ins.status.GetOr(Available), now, now)
  }

  /** The row the database stores for a wallet insert. */
  function NewWallet(ins: WalletInsert, id: int, now: Timestamp): (w: WalletRow)
    ensures w.id == id && w.userId == ins.userId && w.walletAddress == ins.walletAddress
    ensures w.balance == (if ins.balance.Some? then ins.balance.value else "0")
    ensures w.balanceInRupees == (if ins.balanceInRupees.Some? then ins.balanceInRupees.value else "0")
    ensures w.cryptoType == (if ins.cryptoType.Some? then ins.cryptoType.value else "ETH")
    ensures w.createdAt == now && w.updatedAt == now
  {
    WalletRow(
      id, ins.userId, ins.walletAddress, ins.balance.GetOr("0"), ins.balanceInRupees.GetOr("0"),
      ins.cryptoType.GetOr("ETH"), now, now)
  }

  /** The row the database stores for a property-share insert. */
  function NewShare(ins: ShareInsert, id: int, now: Timestamp): (s: ShareRow)
    ensures s.id == id && s.userId == ins.userId && s.propertyId == ins.propertyId
    ensures s.sharesOwned == ins.sharesOwned && s.investmentAmount == ins.investmentAmount
    ensures s.purchaseDate == (if ins.purchaseDate.Some? then ins.purchaseDate.value else now)
    ensures s.cryptoInvested == ins.cryptoInvested && s.transactionHash == ins.transactionHash
    ensures s.createdAt == now && s.updatedAt == now
  {
    ShareRow(
      id, ins.userId, ins.propertyId, ins.sharesOwned, ins.investmentAmount, ins.cryptoInvested,
      ins.purchaseDate.GetOr(now), ins.transactionHash, now, now)
  }

  /** The row the database stores for a transaction insert. */
  function NewTransaction(ins: TransactionInsert, id: int, now: Timestamp): (t: TransactionRow)
    ensures t.id == id && t.userId == ins.userId && t.propertyId == ins.propertyId
    ensures t.transactionType == ins.transactionType && t.sharesAmount == ins.sharesAmount
    ensures t.amountInRupees == ins.amountInRupees && t.cryptoAmount == ins.cryptoAmount
    ensures t.exchangeRate == ins.exchangeRate && t.transactionHash == ins.transactionHash
    ensures t.status == (if ins.status.Some? then ins.status.value else TransactionStatus.Pending)
    ensures t.createdAt == now && t.updatedAt == now
  {
    TransactionRow(
      id, ins.userId, ins.propertyId, ins.transactionType, ins.sharesAmount, ins.amountInRupees,
      ins.cryptoAmount, ins.exchangeRate, ins.transactionHash,
      ins.status.GetOr(TransactionStatus.Pending), now, now)
  }

  /** A property inserted with only its required columns is available, unsold, with a minimum of 1. */
  lemma PropertyDefaults(ins: PropertyInsert, id: int, now: Timestamp)
    requires ins.minShareSize.None? && ins.soldShares.None? && ins.status.None?
    ensures NewProperty(ins, id, now).minShareSize == 1
    ensures NewProperty(ins, id, now).soldShares == 0
    ensures NewProperty(ins, id, now).status == Available
  {
  }

  /** Nothing in the schema ties `soldShares` to `totalShares`: an oversold row is storable. */
  lemma OversoldRowIsStorable()
    ensures exists ins: PropertyInsert, id: int ::
      var p := NewProperty(ins, id, 0); p.soldShares > p.totalShares
  {
    var ins := PropertyInsert("t", None, "l", 10, "1000", "100", None, 10, Some(11), None, "mixed", None);
    assert NewProperty(ins, 1, 0).soldShares > NewProperty(ins, 1, 0).totalShares;
  }
}
