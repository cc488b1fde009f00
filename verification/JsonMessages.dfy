/** Property trees and their leaves: JsonSerializer.hpp and JsonDeserializer.hpp. */
module PropertyTree {

  datatype Tree = Tree(data: string, children: seq<(string, Tree)>)

  datatype ParseError = EmptyValue | BadPath(name: string) | BadData(text: string) | UnknownName(text: string)

  datatype Result<+T> = Ok(value: T) | Err(error: ParseError) {
    predicate IsFailure() { Err? }
    function PropagateFailure<U>(): Result<U>
      requires Err?
    {
      Err(error)
    }
    function Extract(): T
      requires Ok?
    {
      value
    }
  }

  function Leaf(data: string): Tree { Tree(data, []) }

  function Node(children: seq<(string, Tree)>): Tree { Tree("", children) }

  function Find(children: seq<(string, Tree)>, name: string): (i: nat)
    ensures i <= |children|
    ensures i < |children| ==> children[i].0 == name
    ensures forall j :: 0 <= j < i ==> children[j].0 != name
  {
    if children == [] || children[0].0 == name then 0 else 1 + Find(children[1..], name)
  }

  function GetChild(t: Tree, name: string): Result<Tree> {
    var i := Find(t.children, name);
    if i < |t.children| then Ok(t.children[i].1) else Err(BadPath(name))
  }

  lemma ChildAt(t: Tree, i: nat)
    requires i < |t.children| && forall j :: 0 <= j < i ==> t.children[j].0 != t.children[i].0
    ensures GetChild(t, t.children[i].0) == Ok(t.children[i].1)
  {
  }

  function Digit(d: nat): char
    requires d < 10
  {
    '0' + d as char
  }

  function Decimal(n: nat): (s: string)
    ensures s != []
  {
    if n < 10 then [Digit(n)] else Decimal(n / 10) + [Digit(n % 10)]
  }

  predicate IsDigits(s: string) {
    s != [] && forall i :: 0 <= i < |s| ==> '0' <= s[i] <= '9'
  }

  function DigitsValue(s: string): nat
    requires s == [] || IsDigits(s)
  {
    if s == [] then 0 else DigitsValue(s[..|s| - 1]) * 10 + (s[|s| - 1] as int - '0' as int)
  }

  /** An unsigned integer leaf below the limit of its type. */
  function ParseUnsigned(t: Tree, limit: nat): (r: Result<nat>)
    ensures r.Ok? ==> r.value < limit
  {
    if IsDigits(t.data) && DigitsValue(t.data) < limit then Ok(DigitsValue(t.data)) else Err(BadData(t.data))
  }

  lemma {:induction false} DecimalValue(n: nat)
    ensures IsDigits(Decimal(n)) && DigitsValue(Decimal(n)) == n
  {
    if n >= 10 {
      DecimalValue(n / 10);
      assert Decimal(n)[..|Decimal(n)| - 1] == Decimal(n / 10);
    }
  }

  /** n without its last k decimal digits. */
  function Shorter(n: nat, k: nat): nat { if k == 0 then n else Shorter(n / 10, k - 1) }

  /** The text is the decimal numeral: k places from its end stands the k-th digit, and it has no
      leading zero. */
  lemma {:induction false} DecimalPlaces(n: nat, k: nat)
    requires k < |Decimal(n)|
    ensures Decimal(n)[|Decimal(n)| - 1 - k] as int - 48 == Shorter(n, k) % 10
    ensures n > 0 ==> Decimal(n)[0] as int != 48
    ensures n == 0 ==> Decimal(n) == "0"
  {
    if n >= 10 {
      var shorter := Decimal(n / 10);
      assert Decimal(n)[0] == shorter[0];
      if k == 0 {
        DecimalPlaces(n / 10, 0);
      } else {
        DecimalPlaces(n / 10, k - 1);
        assert Decimal(n)[|Decimal(n)| - 1 - k] == shorter[|shorter| - k];
      }
    }
  }

  lemma UnsignedRoundTrip(n: nat, limit: nat)
    requires n < limit
    ensures ParseUnsigned(Leaf(Decimal(n)), limit) == Ok(n)
  {
    DecimalValue(n);
  }

  /** A text is read as a number exactly if it is one or more of the digits 0 to 9 and their value is
      below the limit; leading zeros do not count. */
  lemma UnsignedReadIff(t: Tree, limit: nat)
    ensures ParseUnsigned(t, limit).Ok?
        <==> t.data != [] && (forall i :: 0 <= i < |t.data| ==> 48 <= t.data[i] as int <= 57)
             && DigitsValue(t.data) < limit
  {
  }

  lemma {:induction false} LeadingZero(s: string)
    requires s == [] || IsDigits(s)
    ensures IsDigits("0" + s) && DigitsValue("0" + s) == DigitsValue(s)
  {
    if s == [] {
      assert "0" + s == "0" && "0"[..0] == "";
    } else {
      LeadingZero(s[..|s| - 1]);
      assert ("0" + s)[..|s|] == "0" + s[..|s| - 1];
    }
  }

  /** Element-wise transform of a vector: unnamed children in order. */
  function SerializeVector<T>(items: seq<T>, serialize: T -> Tree): Tree {
    Node(seq(|items|, i requires 0 <= i < |items| => ("", serialize(items[i]))))
  }

  function ParseChildren<T>(children: seq<(string, Tree)>, parse: Tree -> Result<T>): Result<seq<T>> {
    if children == [] then Ok([])
    else
      var head :- parse(children[0].1);
      var tail :- ParseChildren(children[1..], parse);
      Ok([head] + tail)
  }

  function ParseVector<T>(t: Tree, parse: Tree -> Result<T>): Result<seq<T>> {
    ParseChildren(t.children, parse)
  }

  /** A vector is read back exactly if each of its elements is. */
  lemma {:induction false} VectorRoundTrip<T>(items: seq<T>, serialize: T -> Tree, parse: Tree -> Result<T>)
    ensures ParseVector(SerializeVector(items, serialize), parse) == Ok(items)
            <==> forall x :: x in items ==> parse(serialize(x)) == Ok(x)
  {
    if items != [] {
      VectorRoundTrip(items[1..], serialize, parse);
      var children := SerializeVector(items, serialize).children;
      assert children[1..] == SerializeVector(items[1..], serialize).children;
      assert items == [items[0]] + items[1..];
      assert items[0] in items && forall x :: x in items[1..] ==> x in items;
    }
  }
}

/** The model messages and the protocol envelopes as trees, both ways. */
module JsonMessages {
  import opened Order
  import opened PropertyTree
  import opened EnumNames

  type U64 = n: nat | n < 0x1_0000_0000_0000_0000
  type U16 = n: nat | n < 0x1_0000
  type U8 = n: nat | n < 0x100

  const U64_LIMIT := 0x1_0000_0000_0000_0000
  const U16_LIMIT := 0x1_0000
  const U8_LIMIT := 0x100

  /** The text form of a float amount; nothing is taken for granted about it. */
  datatype Codec<!A> = Codec(show: A -> string, read: string -> Option<A>)

  predicate ReadsBack<A(==)>(c: Codec<A>, a: A) { c.read(c.show(a)) == Some(a) }

  datatype UserInformation = UserInformation(id: U64, name: string)
  datatype UserIdInformation = UserIdInformation(id: U64)
  datatype DealInformation<A> = DealInformation(userId: U64, timestamp: U64, amount: A)
  datatype UserPosition<A> = UserPosition(userInformation: UserInformation, position: U64, amount: A)
  datatype UserRelativeRating<A> = UserRelativeRating(
    userPosition: UserPosition<A>,
    headPositions: seq<UserPosition<A>>,
    highPositions: seq<UserPosition<A>>,
    lowPositions: seq<UserPosition<A>>)

  datatype BaseMessage<A> =
    | UserRegistered(user: UserInformation)
    | UserRenamed(user: UserInformation)
    | UserConnected(userId: UserIdInformation)
    | UserDisconnected(userId: UserIdInformation)
    | UserDealWon(deal: DealInformation<A>)
    | UserRating(rating: UserRelativeRating<A>)

  datatype MessageType =
    TUserRegistered | TUserRenamed | TUserConnected | TUserDisconnected | TUserDealWon | TUserRelativeRating

  datatype WsMessage<A> =
    WsAck(id: U16) | WsData(id: U16, data: BaseMessage<A>) | WsError(id: U16, message: string, code: U8)

  datatype WsMessageType = TAck | TData | TError

  const MESSAGE_TYPES: seq<(MessageType, string)> := [
    (TUserRegistered, "user_registered"),
    (TUserRenamed, "user_renamed"),
    (TUserConnected, "user_connected"),
    (TUserDealWon, "user_deal_won"),
    (TUserDisconnected, "user_disconnected"),
    (TUserRelativeRating, "user_rating")]

  const WS_MESSAGE_TYPES: seq<(WsMessageType, string)> := [(TData, "data"), (TAck, "ack"), (TError, "error")]

  function TypeOf<A>(m: BaseMessage<A>): MessageType {
    match m
    case UserRegistered(_) => TUserRegistered
    case UserRenamed(_) => TUserRenamed
    case UserConnected(_) => TUserConnected
    case UserDisconnected(_) => TUserDisconnected
    case UserDealWon(_) => TUserDealWon
    case UserRating(_) => TUserRelativeRating
  }

  function WsTypeOf<A>(m: WsMessage<A>): WsMessageType {
    match m
    case WsAck(_) => TAck
    case WsData(_, _) => TData
    case WsError(_, _, _) => TError
  }

  function AmountsOfPositions<A>(ps: seq<UserPosition<A>>): seq<A> {
    seq(|ps|, i requires 0 <= i < |ps| => ps[i].amount)
  }

  /** Every amount that occurs in a message. */
  function AmountsOf<A>(m: BaseMessage<A>): seq<A> {
    match m
    case UserDealWon(d) => [d.amount]
    case UserRating(r) => AmountsOfRating(r)
    case _ => []
  }

  function AmountsOfRating<A>(r: UserRelativeRating<A>): seq<A> {
    [r.userPosition.amount] + AmountsOfPositions(r.headPositions) + AmountsOfPositions(r.highPositions)
    + AmountsOfPositions(r.lowPositions)
  }

  /** The text form of each of these amounts reads back as that amount. */
  ghost predicate AllReadBack<A>(c: Codec<A>, amounts: seq<A>) {
    forall a :: a in amounts ==> ReadsBack(c, a)
  }

  // ---------- Serialising ----------

  /** An enum leaf: the name from the converter's table. */
  function SerializeEnum<T(==)>(table: seq<(T, string)>, value: T): Tree {
    Leaf(match Build(table).ToString(value) case Some(name) => name case None => "")
  }

  function SerializeUser(u: UserInformation): Tree {
    Node([("id", Leaf(Decimal(u.id))), ("name", Leaf(u.name))])
  }

  function SerializeUserId(u: UserIdInformation): Tree {
    Node([("id", Leaf(Decimal(u.id)))])
  }

  function SerializeDeal<A>(c: Codec<A>, d: DealInformation<A>): Tree {
    Node([("userId", Leaf(Decimal(d.userId))), ("timestamp", Leaf(Decimal(d.timestamp))),
          ("amount", Leaf(c.show(d.amount)))])
  }

  function SerializePosition<A>(c: Codec<A>, p: UserPosition<A>): Tree {
    Node([("userInfo", SerializeUser(p.userInformation)), ("position", Leaf(Decimal(p.position))),
          ("amount", Leaf(c.show(p.amount)))])
  }

  function SerializeRating<A>(c: Codec<A>, r: UserRelativeRating<A>): Tree {
    var positions := (ps: seq<UserPosition<A>>) => SerializeVector(ps, p => SerializePosition(c, p));
    Node([("userPosition", SerializePosition(c, r.userPosition)),
          ("headPositions", positions(r.headPositions)),
          ("highPositions", positions(r.highPositions)),
          ("lowPositions", positions(r.lowPositions))])
  }

  function SerializePayload<A>(c: Codec<A>, m: BaseMessage<A>): Tree {
    match m
    case UserRegistered(u) => SerializeUser(u)
    case UserRenamed(u) => SerializeUser(u)
    case UserConnected(u) => SerializeUserId(u)
    case UserDisconnected(u) => SerializeUserId(u)
    case UserDealWon(d) => SerializeDeal(c, d)
    case UserRating(r) => SerializeRating(c, r)
  }

  function SerializeMessage<A>(c: Codec<A>, m: BaseMessage<A>): Tree {
    Node([("type", SerializeEnum(MESSAGE_TYPES, TypeOf(m))), ("payload", SerializePayload(c, m))])
  }

  function SerializeWs<A>(c: Codec<A>, m: WsMessage<A>): Tree {
    var common := [("id", Leaf(Decimal(m.id))), ("type", SerializeEnum(WS_MESSAGE_TYPES, WsTypeOf(m)))];
    match m
    case WsAck(_) => Node(common)
    case WsError(_, message, code) =>
      Node(common + [("error", Node([("message", Leaf(message)), ("errorCode", Leaf(Decimal(code)))]))])
    case WsData(_, data) => Node(common + [("data", SerializeMessage(c, data))])
  }

  // ---------- Parsing ----------

  function ParseEnum<T(==)>(table: seq<(T, string)>, t: Tree): Result<T> {
    match Build(table).ToEnum(t.data)
    case Some(value) => Ok(value)
    case None => Err(UnknownName(t.data))
  }

  function ParseAmount<A>(c: Codec<A>, t: Tree): Result<A> {
    match c.read(t.data)
    case Some(a) => Ok(a)
    case None => Err(BadData(t.data))
  }

  function ParseUser(t: Tree): Result<UserInformation> {
    if t.children == [] then Err(EmptyValue)
    else
      var idTree :- GetChild(t, "id");
      var id :- ParseUnsigned(idTree, U64_LIMIT);
      var name :- GetChild(t, "name");
      Ok(UserInformation(id, name.data))
  }

  function ParseUserId(t: Tree): Result<UserIdInformation> {
    if t.children == [] then Err(EmptyValue)
    else
      var idTree :- GetChild(t, "id");
      var id :- ParseUnsigned(idTree, U64_LIMIT);
      Ok(UserIdInformation(id))
  }

  function ParseDeal<A>(c: Codec<A>, t: Tree): Result<DealInformation<A>> {
    if t.children == [] then Err(EmptyValue)
    else
      var userIdTree :- GetChild(t, "userId");
      var userId :- ParseUnsigned(userIdTree, U64_LIMIT);
      var timestampTree :- GetChild(t, "timestamp");
      var timestamp :- ParseUnsigned(timestampTree, U64_LIMIT);
      var amountTree :- GetChild(t, "amount");
      var amount :- ParseAmount(c, amountTree);
      Ok(DealInformation(userId, timestamp, amount))
  }

  function ParsePosition<A>(c: Codec<A>, t: Tree): Result<UserPosition<A>> {
    if t.children == [] then Err(EmptyValue)
    else
      var userTree :- GetChild(t, "userInfo");
      var user :- ParseUser(userTree);
      var positionTree :- GetChild(t, "position");
      var position :- ParseUnsigned(positionTree, U64_LIMIT);
      var amountTree :- GetChild(t, "amount");
      var amount :- ParseAmount(c, amountTree);
      Ok(UserPosition(user, position, amount))
  }

  function ParseRating<A>(c: Codec<A>, t: Tree): Result<UserRelativeRating<A>> {
    if t.children == [] then Err(EmptyValue)
    else
      var parse := (p: Tree) => ParsePosition(c, p);
      var userTree :- GetChild(t, "userPosition");
      var user :- ParsePosition(c, userTree);
      var headTree :- GetChild(t, "headPositions");
      var head :- ParseVector(headTree, parse);
      var highTree :- GetChild(t, "highPositions");
      var high :- ParseVector(highTree, parse);
      var lowTree :- GetChild(t, "lowPositions");
      var low :- ParseVector(lowTree, parse);
      Ok(UserRelativeRating(user, head, high, low))
  }

  /** Dispatch on the type name; each branch reads the payload its message type calls for. */
  function ParseMessage<A>(c: Codec<A>, t: Tree): Result<BaseMessage<A>> {
    if t.children == [] then Err(EmptyValue)
    else
      var typeTree :- GetChild(t, "type");
      var type_ :- ParseEnum(MESSAGE_TYPES, typeTree);
      var payload :- GetChild(t, "payload");
      ParsePayload(c, type_, payload)
  }

  function ParsePayload<A>(c: Codec<A>, type_: MessageType, payload: Tree): Result<BaseMessage<A>> {
    match type_
    case TUserRegistered => var u :- ParseUser(payload); Ok(UserRegistered(u))
    case TUserRenamed => var u :- ParseUser(payload); Ok(UserRenamed(u))
    case TUserConnected => var u :- ParseUserId(payload); Ok(UserConnected(u))
    case TUserDisconnected => var u :- ParseUserId(payload); Ok(UserDisconnected(u))
    case TUserDealWon => var d :- ParseDeal(c, payload); Ok(UserDealWon(d))
    case TUserRelativeRating => var r :- ParseRating(c, payload); Ok(UserRating(r))
  }

  function ParseWsError<A>(t: Tree): Result<WsMessage<A>> {
    if t.children == [] then Err(EmptyValue)
    else
      var child :- GetChild(t, "error");
      var idTree :- GetChild(t, "id");
      var id :- ParseUnsigned(idTree, U16_LIMIT);
      var codeTree :- GetChild(child, "errorCode");
      var code :- ParseUnsigned(codeTree, U8_LIMIT);
      var message :- GetChild(child, "message");
      Ok(WsError(id, message.data, code))
  }

  function ParseWsData<A>(c: Codec<A>, t: Tree): Result<WsMessage<A>> {
    if t.children == [] then Err(EmptyValue)
    else
      var idTree :- GetChild(t, "id");
      var id :- ParseUnsigned(idTree, U16_LIMIT);
      var dataTree :- GetChild(t, "data");
      var data :- ParseMessage(c, dataTree);
      Ok(WsData(id, data))
  }

  function ParseWs<A>(c: Codec<A>, t: Tree): Result<WsMessage<A>> {
    if t.children == [] then Err(EmptyValue)
    else
      var typeTree :- GetChild(t, "type");
      var type_ :- ParseEnum(WS_MESSAGE_TYPES, typeTree);
      var idTree :- GetChild(t, "id");
      var id :- ParseUnsigned(idTree, U16_LIMIT);
      match type_
      case TAck => Ok(WsAck(id))
      case TError => ParseWsError(t)
      case TData => ParseWsData(c, t)
  }

  // ---------- Round trips ----------

  lemma LengthsTellApart<T>(pairs: seq<(T, string)>)
    requires forall i, j :: 0 <= i < j < |pairs| ==> |pairs[i].1| != |pairs[j].1|
    ensures DistinctNames(pairs)
  {
  }

  function NameLength(i: nat): nat
    requires i < 6
  {
    [15, 12, 14, 13, 17, 11][i]
  }

  /** The six message type names and the three envelope names differ in length already. */
  lemma {:induction false} NamesOk()
    ensures DistinctKeys(MESSAGE_TYPES) && DistinctNames(MESSAGE_TYPES)
    ensures DistinctKeys(WS_MESSAGE_TYPES) && DistinctNames(WS_MESSAGE_TYPES)
  {
    assert forall i :: 0 <= i < 6 ==> |MESSAGE_TYPES[i].1| == NameLength(i);
    LengthsTellApart(MESSAGE_TYPES);
    LengthsTellApart(WS_MESSAGE_TYPES);
  }

  /** Two trees that differ at most in the letter case of a type name. */
  predicate SameName(t: Tree, u: Tree) {
    t.children == u.children && SameSpelling(t.data, u.data)
  }

  lemma TypeRead(t: MessageType, tree: Tree)
    requires SameName(tree, SerializeEnum(MESSAGE_TYPES, t))
    ensures ParseEnum(MESSAGE_TYPES, tree) == Ok(t)
  {
    NamesOk();
    var i := match t
      case TUserRegistered => 0
      case TUserRenamed => 1
      case TUserConnected => 2
      case TUserDealWon => 3
      case TUserDisconnected => 4
      case TUserRelativeRating => 5;
    assert MESSAGE_TYPES[i].0 == t;
    BuildToString(MESSAGE_TYPES, i);
    AnyCase(MESSAGE_TYPES, i, tree.data);
  }

  lemma WsTypeRead(t: WsMessageType, tree: Tree)
    requires SameName(tree, SerializeEnum(WS_MESSAGE_TYPES, t))
    ensures ParseEnum(WS_MESSAGE_TYPES, tree) == Ok(t)
  {
    NamesOk();
    var i := match t case TData => 0 case TAck => 1 case TError => 2;
    assert WS_MESSAGE_TYPES[i].0 == t;
    BuildToString(WS_MESSAGE_TYPES, i);
    AnyCase(WS_MESSAGE_TYPES, i, tree.data);
  }

  lemma UserRoundTrip(u: UserInformation)
    ensures ParseUser(SerializeUser(u)) == Ok(u)
  {
    var t := SerializeUser(u);
    ChildAt(t, 0);
    ChildAt(t, 1);
    UnsignedRoundTrip(u.id, U64_LIMIT);
  }

  lemma UserIdRoundTrip(u: UserIdInformation)
    ensures ParseUserId(SerializeUserId(u)) == Ok(u)
  {
    ChildAt(SerializeUserId(u), 0);
    UnsignedRoundTrip(u.id, U64_LIMIT);
  }

  lemma DealRoundTrip<A>(c: Codec<A>, d: DealInformation<A>)
    ensures ParseDeal(c, SerializeDeal(c, d)) == Ok(d) <==> ReadsBack(c, d.amount)
  {
    var t := SerializeDeal(c, d);
    ChildAt(t, 0);
    ChildAt(t, 1);
    ChildAt(t, 2);
    UnsignedRoundTrip(d.userId, U64_LIMIT);
    UnsignedRoundTrip(d.timestamp, U64_LIMIT);
  }

  lemma PositionRoundTrip<A>(c: Codec<A>, p: UserPosition<A>)
    ensures ParsePosition(c, SerializePosition(c, p)) == Ok(p) <==> ReadsBack(c, p.amount)
  {
    var t := SerializePosition(c, p);
    ChildAt(t, 0);
    ChildAt(t, 1);
    ChildAt(t, 2);
    UserRoundTrip(p.userInformation);
    UnsignedRoundTrip(p.position, U64_LIMIT);
  }

  lemma PositionsRoundTrip<A>(c: Codec<A>, ps: seq<UserPosition<A>>)
    ensures ParseVector(SerializeVector(ps, p => SerializePosition(c, p)), t => ParsePosition(c, t)) == Ok(ps)
            <==> AllReadBack(c, AmountsOfPositions(ps))
  {
    VectorRoundTrip(ps, p => SerializePosition(c, p), t => ParsePosition(c, t));
    PositionsReadBack(c, ps);
    forall p | p in ps ensures ParsePosition(c, SerializePosition(c, p)) == Ok(p) <==> ReadsBack(c, p.amount) {
      PositionRoundTrip(c, p);
    }
  }

  lemma PositionsReadBack<A>(c: Codec<A>, ps: seq<UserPosition<A>>)
    ensures AllReadBack(c, AmountsOfPositions(ps)) <==> forall p :: p in ps ==> ReadsBack(c, p.amount)
  {
    forall p | p in ps ensures p.amount in AmountsOfPositions(ps) {
      var i :| 0 <= i < |ps| && ps[i] == p;
      assert AmountsOfPositions(ps)[i] == p.amount;
    }
  }

  lemma RatingAmounts<A>(c: Codec<A>, r: UserRelativeRating<A>)
    ensures AllReadBack(c, AmountsOfRating(r))
            <==> ReadsBack(c, r.userPosition.amount) && AllReadBack(c, AmountsOfPositions(r.headPositions))
                 && AllReadBack(c, AmountsOfPositions(r.highPositions))
                 && AllReadBack(c, AmountsOfPositions(r.lowPositions))
  {
    var own, head, high, low := [r.userPosition.amount], AmountsOfPositions(r.headPositions),
                                AmountsOfPositions(r.highPositions), AmountsOfPositions(r.lowPositions);
    assert forall a :: a in own + head + high + low <==> a in own || a in head || a in high || a in low;
  }

  lemma {:induction false} RatingRoundTrip<A>(c: Codec<A>, r: UserRelativeRating<A>)
    ensures ParseRating(c, SerializeRating(c, r)) == Ok(r) <==> AllReadBack(c, AmountsOfRating(r))
  {
    var t := SerializeRating(c, r);
    ChildAt(t, 0);
    ChildAt(t, 1);
    ChildAt(t, 2);
    ChildAt(t, 3);
    PositionRoundTrip(c, r.userPosition);
    PositionsRoundTrip(c, r.headPositions);
    PositionsRoundTrip(c, r.highPositions);
    PositionsRoundTrip(c, r.lowPositions);
    RatingAmounts(c, r);
  }

  lemma {:induction false} RatingPayload<A>(c: Codec<A>, r: UserRelativeRating<A>)
    ensures ParsePayload(c, TUserRelativeRating, SerializeRating(c, r)) == Ok(UserRating(r))
            <==> AllReadBack(c, AmountsOfRating(r))
  {
    var t := SerializeRating(c, r);
    RatingRoundTrip(c, r);
    assert ParsePayload(c, TUserRelativeRating, t)
        == match ParseRating(c, t) case Ok(v) => Ok(UserRating(v)) case Err(e) => Err(e);
  }

  lemma DealPayload<A>(c: Codec<A>, d: DealInformation<A>)
    ensures ParsePayload(c, TUserDealWon, SerializeDeal(c, d)) == Ok(UserDealWon(d)) <==> AllReadBack(c, [d.amount])
  {
    DealRoundTrip(c, d);
    assert d.amount in [d.amount];
  }

  lemma PayloadRoundTrip<A>(c: Codec<A>, m: BaseMessage<A>)
    ensures ParsePayload(c, TypeOf(m), SerializePayload(c, m)) == Ok(m) <==> AllReadBack(c, AmountsOf(m))
  {
    match m
    case UserRegistered(u) => UserRoundTrip(u);
    case UserRenamed(u) => UserRoundTrip(u);
    case UserConnected(u) => UserIdRoundTrip(u);
    case UserDisconnected(u) => UserIdRoundTrip(u);
    case UserDealWon(d) => DealPayload(c, d);
    case UserRating(r) => RatingPayload(c, r);
  }

  /** A message's tree with its type name in any letter case. */
  ghost predicate RecasedMessage<A>(c: Codec<A>, t: Tree, m: BaseMessage<A>) {
    var s := SerializeMessage(c, m);
    && |t.children| == |s.children| && t.children[0].0 == "type"
    && SameName(t.children[0].1, s.children[0].1) && t.children[1] == s.children[1]
  }

  /** An envelope's tree with its type names in any letter case. */
  ghost predicate RecasedWs<A>(c: Codec<A>, t: Tree, m: WsMessage<A>) {
    var s := SerializeWs(c, m);
    && |t.children| == |s.children| && t.children[0] == s.children[0]
    && t.children[1].0 == "type" && SameName(t.children[1].1, s.children[1].1)
    && (m.WsError? ==> t.children[2] == s.children[2])
    && (m.WsData? ==> t.children[2].0 == "data" && RecasedMessage(c, t.children[2].1, m.data))
  }

  lemma MessageRoundTrip<A>(c: Codec<A>, t: Tree, m: BaseMessage<A>)
    requires RecasedMessage(c, t, m)
    ensures ParseMessage(c, t) == Ok(m) <==> AllReadBack(c, AmountsOf(m))
  {
    ChildAt(t, 0);
    ChildAt(t, 1);
    TypeRead(TypeOf(m), t.children[0].1);
    PayloadRoundTrip(c, m);
  }

  lemma EnvelopeRead<A>(c: Codec<A>, t: Tree, m: WsMessage<A>)
    requires RecasedWs(c, t, m)
    ensures GetChild(t, "id") == Ok(t.children[0].1) && ParseUnsigned(t.children[0].1, U16_LIMIT) == Ok(m.id)
    ensures GetChild(t, "type") == Ok(t.children[1].1)
        && ParseEnum(WS_MESSAGE_TYPES, t.children[1].1) == Ok(WsTypeOf(m))
  {
    ChildAt(t, 0);
    ChildAt(t, 1);
    WsTypeRead(WsTypeOf(m), t.children[1].1);
    UnsignedRoundTrip(m.id, U16_LIMIT);
  }

  lemma DataChild<A>(c: Codec<A>, t: Tree, m: WsMessage<A>)
    requires RecasedWs(c, t, m) && m.WsData?
    ensures |t.children| == 3 && GetChild(t, "data") == Ok(t.children[2].1)
    ensures RecasedMessage(c, t.children[2].1, m.data)
  {
    ChildAt(t, 2);
  }

  lemma DataParsed<A>(c: Codec<A>, t: Tree, id: U16, data: Tree)
    requires t.children != [] && GetChild(t, "data") == Ok(data)
    requires GetChild(t, "id").Ok? && ParseUnsigned(GetChild(t, "id").value, U16_LIMIT) == Ok(id)
    ensures ParseWsData(c, t) == match ParseMessage(c, data) case Ok(m) => Ok(WsData(id, m)) case Err(e) => Err(e)
  {
  }

  lemma {:induction false} WsDataRoundTrip<A>(c: Codec<A>, t: Tree, m: WsMessage<A>)
    requires RecasedWs(c, t, m) && m.WsData?
    ensures ParseWsData(c, t) == Ok(m) <==> AllReadBack(c, AmountsOf(m.data))
  {
    EnvelopeRead(c, t, m);
    DataChild(c, t, m);
    DataParsed(c, t, m.id, t.children[2].1);
    MessageRoundTrip(c, t.children[2].1, m.data);
  }

  lemma {:induction false} WsErrorRoundTrip<A>(c: Codec<A>, t: Tree, m: WsMessage<A>)
    requires RecasedWs(c, t, m) && m.WsError?
    ensures ParseWsError(t) == Ok(m)
  {
    EnvelopeRead(c, t, m);
    ChildAt(t, 2);
    var child := t.children[2].1;
    ChildAt(child, 0);
    ChildAt(child, 1);
    UnsignedRoundTrip(m.code, U8_LIMIT);
  }

  /** Parsing gives back a message from its tree, whatever the letter case of its type names,
      exactly if the text of each amount in it reads back: for every ack and error, and for every
      data message without amounts, always. */
  lemma WsRoundTrip<A>(c: Codec<A>, t: Tree, m: WsMessage<A>)
    requires RecasedWs(c, t, m)
    ensures ParseWs(c, t) == Ok(m) <==> (m.WsData? ==> AllReadBack(c, AmountsOf(m.data)))
  {
    EnvelopeRead(c, t, m);
    match m
    case WsAck(_) =>
    case WsData(_, _) => WsDataRoundTrip(c, t, m);
    case WsError(_, _, _) => WsErrorRoundTrip(c, t, m);
  }

  /** In particular parsing undoes serialising. */
  lemma ParseSerialize<A>(c: Codec<A>, m: WsMessage<A>)
    ensures ParseWs(c, SerializeWs(c, m)) == Ok(m) <==> (m.WsData? ==> AllReadBack(c, AmountsOf(m.data)))
  {
    WsRoundTrip(c, SerializeWs(c, m), m);
  }

  /** A type name is accepted exactly when it spells one of the six in some letter case. */
  lemma TypeNameAccepted(tree: Tree)
    ensures ParseEnum(MESSAGE_TYPES, tree).Ok?
        <==> exists i :: 0 <= i < |MESSAGE_TYPES| && SameSpelling(MESSAGE_TYPES[i].1, tree.data)
  {
    NamesOk();
    BuildToEnum(MESSAGE_TYPES, tree.data);
  }

  // ---------- What is on the wire ----------

  /** The name each kind of message goes by. */
  function NameOf<A>(m: BaseMessage<A>): string {
    match m
    case UserRegistered(_) => "user_registered"
    case UserRenamed(_) => "user_renamed"
    case UserConnected(_) => "user_connected"
    case UserDisconnected(_) => "user_disconnected"
    case UserDealWon(_) => "user_deal_won"
    case UserRating(_) => "user_rating"
  }

  function WsNameOf<A>(m: WsMessage<A>): string {
    match m
    case WsAck(_) => "ack"
    case WsData(_, _) => "data"
    case WsError(_, _, _) => "error"
  }

  predicate InTable<T(==)>(table: seq<(T, string)>, value: T, name: string) {
    exists i :: 0 <= i < |table| && table[i] == (value, name)
  }

  lemma NameInTable<A>(m: BaseMessage<A>)
    ensures InTable(MESSAGE_TYPES, TypeOf(m), NameOf(m))
  {
    match m
    case UserRegistered(_) => assert MESSAGE_TYPES[0] == (TUserRegistered, "user_registered");
    case UserRenamed(_) => assert MESSAGE_TYPES[1] == (TUserRenamed, "user_renamed");
    case UserConnected(_) => assert MESSAGE_TYPES[2] == (TUserConnected, "user_connected");
    case UserDealWon(_) => assert MESSAGE_TYPES[3] == (TUserDealWon, "user_deal_won");
    case UserDisconnected(_) => assert MESSAGE_TYPES[4] == (TUserDisconnected, "user_disconnected");
    case UserRating(_) => assert MESSAGE_TYPES[5] == (TUserRelativeRating, "user_rating");
  }

  lemma WsNameInTable<A>(m: WsMessage<A>)
    ensures InTable(WS_MESSAGE_TYPES, WsTypeOf(m), WsNameOf(m))
  {
    match m
    case WsData(_, _) => assert WS_MESSAGE_TYPES[0] == (TData, "data");
    case WsAck(_) => assert WS_MESSAGE_TYPES[1] == (TAck, "ack");
    case WsError(_, _, _) => assert WS_MESSAGE_TYPES[2] == (TError, "error");
  }

  lemma Named<T>(table: seq<(T, string)>, value: T, name: string)
    requires DistinctKeys(table) && InTable(table, value, name)
    ensures SerializeEnum(table, value) == Leaf(name)
  {
    var i :| 0 <= i < |table| && table[i] == (value, name);
    BuildToString(table, i);
  }

  lemma Spelled<T>(table: seq<(T, string)>, t: Tree, value: T, name: string)
    requires DistinctKeys(table) && DistinctNames(table) && InTable(table, value, name)
    ensures ParseEnum(table, t) == Ok(value) <==> SameSpelling(name, t.data)
  {
    var i :| 0 <= i < |table| && table[i] == (value, name);
    AcceptedIff(table, t.data, value);
  }

  predicate HasNumber(t: Tree, name: string, n: nat) { GetChild(t, name) == Ok(Leaf(Decimal(n))) }

  predicate HasText(t: Tree, name: string, text: string) { GetChild(t, name) == Ok(Leaf(text)) }

  lemma UserFields(u: UserInformation)
    ensures HasNumber(SerializeUser(u), "id", u.id) && HasText(SerializeUser(u), "name", u.name)
    ensures HasNumber(SerializeUserId(UserIdInformation(u.id)), "id", u.id)
  {
    ChildAt(SerializeUser(u), 0);
    ChildAt(SerializeUser(u), 1);
    ChildAt(SerializeUserId(UserIdInformation(u.id)), 0);
  }

  lemma DealFields<A>(c: Codec<A>, d: DealInformation<A>)
    ensures var t := SerializeDeal(c, d);
            HasNumber(t, "userId", d.userId) && HasNumber(t, "timestamp", d.timestamp)
            && HasText(t, "amount", c.show(d.amount))
  {
    var t := SerializeDeal(c, d);
    ChildAt(t, 0);
    ChildAt(t, 1);
    ChildAt(t, 2);
  }

  lemma PositionFields<A>(c: Codec<A>, p: UserPosition<A>)
    ensures var t := SerializePosition(c, p);
            && GetChild(t, "userInfo") == Ok(SerializeUser(p.userInformation))
            && HasNumber(t, "position", p.position) && HasText(t, "amount", c.show(p.amount))
  {
    var t := SerializePosition(c, p);
    ChildAt(t, 0);
    ChildAt(t, 1);
    ChildAt(t, 2);
  }

  /** A list of positions: unnamed children, one for each, in order. */
  ghost predicate HasPositions<A>(c: Codec<A>, t: Tree, name: string, ps: seq<UserPosition<A>>) {
    && GetChild(t, name).Ok?
    && var list := GetChild(t, name).value;
    && list.data == "" && |list.children| == |ps|
    && forall i :: 0 <= i < |ps| ==> list.children[i] == ("", SerializePosition(c, ps[i]))
  }

  lemma RatingFields<A>(c: Codec<A>, r: UserRelativeRating<A>)
    ensures var t := SerializeRating(c, r);
            && GetChild(t, "userPosition") == Ok(SerializePosition(c, r.userPosition))
            && HasPositions(c, t, "headPositions", r.headPositions)
            && HasPositions(c, t, "highPositions", r.highPositions)
            && HasPositions(c, t, "lowPositions", r.lowPositions)
  {
    var t := SerializeRating(c, r);
    ChildAt(t, 0);
    ChildAt(t, 1);
    ChildAt(t, 2);
    ChildAt(t, 3);
  }

  /** A message on the wire: its name under "type", its contents under "payload". */
  lemma MessageFields<A>(c: Codec<A>, m: BaseMessage<A>)
    ensures var t := SerializeMessage(c, m);
            HasText(t, "type", NameOf(m)) && GetChild(t, "payload") == Ok(SerializePayload(c, m))
  {
    var t := SerializeMessage(c, m);
    ChildAt(t, 0);
    ChildAt(t, 1);
    TypeLeaf(m);
  }

  lemma TypeLeaf<A>(m: BaseMessage<A>)
    ensures SerializeEnum(MESSAGE_TYPES, TypeOf(m)) == Leaf(NameOf(m))
  {
    NamesOk();
    NameInTable(m);
    Named(MESSAGE_TYPES, TypeOf(m), NameOf(m));
  }

  lemma WsTypeLeaf<A>(m: WsMessage<A>)
    ensures SerializeEnum(WS_MESSAGE_TYPES, WsTypeOf(m)) == Leaf(WsNameOf(m))
  {
    NamesOk();
    WsNameInTable(m);
    Named(WS_MESSAGE_TYPES, WsTypeOf(m), WsNameOf(m));
  }

  /** An envelope on the wire: its id and its name, and with it the message or the error. */
  lemma WsFields<A>(c: Codec<A>, m: WsMessage<A>)
    ensures HasNumber(SerializeWs(c, m), "id", m.id) && HasText(SerializeWs(c, m), "type", WsNameOf(m))
    ensures m.WsData? ==> GetChild(SerializeWs(c, m), "data") == Ok(SerializeMessage(c, m.data))
    ensures m.WsError? ==> HasError(SerializeWs(c, m), m.message, m.code)
  {
    WsHead(c, m);
    match m
    case WsAck(_) =>
    case WsData(_, _) => ChildAt(SerializeWs(c, m), 2);
    case WsError(_, message, code) =>
      ChildAt(SerializeWs(c, m), 2);
      ErrorFields(message, code);
  }

  lemma WsHead<A>(c: Codec<A>, m: WsMessage<A>)
    ensures HasNumber(SerializeWs(c, m), "id", m.id) && HasText(SerializeWs(c, m), "type", WsNameOf(m))
  {
    ChildAt(SerializeWs(c, m), 0);
    ChildAt(SerializeWs(c, m), 1);
    WsTypeLeaf(m);
  }

  predicate HasError(t: Tree, message: string, code: U8) {
    && GetChild(t, "error").Ok?
    && HasText(GetChild(t, "error").value, "message", message)
    && HasNumber(GetChild(t, "error").value, "errorCode", code)
  }

  lemma ErrorFields(message: string, code: U8)
    ensures var e := Node([("message", Leaf(message)), ("errorCode", Leaf(Decimal(code)))]);
            HasText(e, "message", message) && HasNumber(e, "errorCode", code)
  {
    var e := Node([("message", Leaf(message)), ("errorCode", Leaf(Decimal(code)))]);
    ChildAt(e, 0);
    ChildAt(e, 1);
  }

  // ---------- What is accepted ----------

  /** A child with this name holds the number in decimal digits. */
  predicate Reads(t: Tree, name: string, n: nat) {
    GetChild(t, name).Ok? && IsDigits(GetChild(t, name).value.data) && DigitsValue(GetChild(t, name).value.data) == n
  }

  predicate Spells(t: Tree, name: string, text: string) {
    GetChild(t, name).Ok? && SameSpelling(text, GetChild(t, name).value.data)
  }

  /** Nothing is read from a tree without children. */
  lemma EmptyRefused<A>(c: Codec<A>, t: Tree)
    requires t.children == []
    ensures ParseUser(t) == Err(EmptyValue) && ParseUserId(t) == Err(EmptyValue) && ParseDeal(c, t) == Err(EmptyValue)
    ensures ParsePosition(c, t) == Err(EmptyValue) && ParseRating(c, t) == Err(EmptyValue)
    ensures ParseMessage(c, t) == Err(EmptyValue) && ParseWs(c, t) == Err(EmptyValue)
  {
  }

  /** Whatever the order of the children and whatever else the tree holds. */
  lemma UserReadIff(t: Tree, u: UserInformation)
    ensures ParseUser(t) == Ok(u)
        <==> Reads(t, "id", u.id) && GetChild(t, "name").Ok? && GetChild(t, "name").value.data == u.name
    ensures ParseUserId(t) == Ok(UserIdInformation(u.id)) <==> Reads(t, "id", u.id)
  {
  }

  lemma DealReadIff<A>(c: Codec<A>, t: Tree, d: DealInformation<A>)
    ensures ParseDeal(c, t) == Ok(d)
        <==> Reads(t, "userId", d.userId) && Reads(t, "timestamp", d.timestamp)
             && GetChild(t, "amount").Ok? && c.read(GetChild(t, "amount").value.data) == Some(d.amount)
  {
  }

  lemma PositionReadIff<A>(c: Codec<A>, t: Tree, p: UserPosition<A>)
    ensures ParsePosition(c, t) == Ok(p)
        <==> GetChild(t, "userInfo").Ok? && ParseUser(GetChild(t, "userInfo").value) == Ok(p.userInformation)
             && Reads(t, "position", p.position)
             && GetChild(t, "amount").Ok? && c.read(GetChild(t, "amount").value.data) == Some(p.amount)
  {
  }

  /** Exactly which trees are read as a given message. */
  lemma MessageReadIff<A>(c: Codec<A>, t: Tree, m: BaseMessage<A>)
    ensures ParseMessage(c, t) == Ok(m)
        <==> Spells(t, "type", NameOf(m)) && GetChild(t, "payload").Ok?
             && ParsePayload(c, TypeOf(m), GetChild(t, "payload").value) == Ok(m)
  {
    if GetChild(t, "type").Ok? {
      NamesOk();
      NameInTable(m);
      Spelled(MESSAGE_TYPES, GetChild(t, "type").value, TypeOf(m), NameOf(m));
      if GetChild(t, "payload").Ok? && ParseEnum(MESSAGE_TYPES, GetChild(t, "type").value).Ok? {
        PayloadKind(c, ParseEnum(MESSAGE_TYPES, GetChild(t, "type").value).value, GetChild(t, "payload").value);
      }
    }
  }

  lemma PayloadKind<A>(c: Codec<A>, type_: MessageType, payload: Tree)
    ensures ParsePayload(c, type_, payload).Ok? ==> TypeOf(ParsePayload(c, type_, payload).value) == type_
  {
  }

  lemma WsTypeSpelled<A>(t: Tree, m: WsMessage<A>)
    ensures ParseEnum(WS_MESSAGE_TYPES, t) == Ok(WsTypeOf(m)) <==> SameSpelling(WsNameOf(m), t.data)
  {
    NamesOk();
    WsNameInTable(m);
    Spelled(WS_MESSAGE_TYPES, t, WsTypeOf(m), WsNameOf(m));
  }

  /** Exactly which trees are read as a given envelope. */
  lemma WsReadIff<A>(c: Codec<A>, t: Tree, m: WsMessage<A>)
    ensures ParseWs(c, t) == Ok(m) <==> Reads(t, "id", m.id) && Spells(t, "type", WsNameOf(m)) && ReadsRest(c, t, m)
  {
    if GetChild(t, "type").Ok? {
      WsTypeSpelled(GetChild(t, "type").value, m);
    }
    WsKind(c, t);
    match m
    case WsAck(_) => AckRead(c, t, m);
    case WsData(_, _) => DataRead(c, t, m);
    case WsError(_, _, _) => ErrorRead(c, t, m);
  }

  /** The type that was read decides the kind of envelope. */
  lemma WsKind<A>(c: Codec<A>, t: Tree)
    ensures ParseWs(c, t).Ok? ==> TypeIs(t, WsTypeOf(ParseWs(c, t).value))
  {
  }

  predicate TypeIs(t: Tree, type_: WsMessageType) {
    GetChild(t, "type").Ok? && ParseEnum(WS_MESSAGE_TYPES, GetChild(t, "type").value) == Ok(type_)
  }

  lemma AckRead<A>(c: Codec<A>, t: Tree, m: WsMessage<A>)
    requires m.WsAck?
    ensures TypeIs(t, TAck) ==> (ParseWs(c, t) == Ok(m) <==> Reads(t, "id", m.id))
  {
  }

  lemma DataRead<A>(c: Codec<A>, t: Tree, m: WsMessage<A>)
    requires m.WsData?
    ensures TypeIs(t, TData) ==> (ParseWs(c, t) == Ok(m) <==> Reads(t, "id", m.id) && ReadsRest(c, t, m))
  {
  }

  lemma ErrorRead<A>(c: Codec<A>, t: Tree, m: WsMessage<A>)
    requires m.WsError?
    ensures TypeIs(t, TError) ==> (ParseWs(c, t) == Ok(m) <==> Reads(t, "id", m.id) && ReadsRest(c, t, m))
  {
  }

  /** What an envelope of its kind holds besides id and type. */
  predicate ReadsRest<A(==)>(c: Codec<A>, t: Tree, m: WsMessage<A>) {
    match m
    case WsAck(_) => true
    case WsData(_, data) => GetChild(t, "data").Ok? && ParseMessage(c, GetChild(t, "data").value) == Ok(data)
    case WsError(_, message, code) => GetChild(t, "error").Ok? && ReadsError(GetChild(t, "error").value, message, code)
  }

  predicate ReadsError(e: Tree, message: string, code: U8) {
    Reads(e, "errorCode", code) && GetChild(e, "message").Ok? && GetChild(e, "message").value.data == message
  }
}
