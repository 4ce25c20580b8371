/** The app's shared store (AppData.swift): the fall threshold, the fall history,
    the contact list, the cooldown gate in front of the fall notification, the
    email leg of an escalation and the replay of a delivered notification. */
module AppStore {
  import opened Base
  import opened Text

  /** One logged fall. */
  datatype FallRecord = FallRecord(id: Uuid, date: Date, gForce: real)

  /** One emergency contact. */
  datatype ConnectionEmail = ConnectionEmail(id: Uuid, email: string)

  /** A value of a notification's `userInfo` dictionary: a `Double`, or anything else. */
  datatype PayloadValue = DoubleValue(g: real) | OtherValue(text: string)

  type Payload = map<string, PayloadValue>

  /** The local notification handed to the notification centre. */
  datatype FallNotice = FallNotice(title: string, category: string, userInfo: Payload)

  /** The arguments of one call to the email service. */
  datatype EmailRequest = EmailRequest(to: seq<string>, name: string, age: Option<int>, gForce: Option<real>)

  const MinThreshold: real := 1.2
  const MaxThreshold: real := 4.0
  const DefaultThreshold: real := 2.2
  const SpeedKey: string := "fallSpeedG"
  const NoticeTitle: string := "Sudden Movement Detected"
  const NoticeCategory: string := "FALL_DETECTED"

  // ---------------------------------------------------------------- threshold

  /** `min(max(g, 1.2), 4.0)`, the re-clamp applied on every write of the threshold:
      the result is in range, and a value already in range is kept. */
  function Clamp(g: real): (r: real)
    ensures MinThreshold <= r <= MaxThreshold
    ensures MinThreshold <= g <= MaxThreshold ==> r == g
  {
    var lower := if g < MinThreshold then MinThreshold else g;
    if lower > MaxThreshold then MaxThreshold else lower
  }

  function Distance(a: real, b: real): real {
    if a >= b then a - b else b - a
  }

  /** The clamped value is the in-range value nearest to the one written. */
  lemma ClampNearest(g: real, x: real)
    requires MinThreshold <= x <= MaxThreshold
    ensures Distance(Clamp(g), g) <= Distance(x, g)
  {
  }

  /** Clamping twice is clamping once. */
  lemma ClampIdempotent(g: real)
    ensures Clamp(Clamp(g)) == Clamp(g)
  {
  }

  /** A larger value never clamps to a smaller threshold. */
  lemma ClampMonotone(a: real, b: real)
    requires a <= b
    ensures Clamp(a) <= Clamp(b)
  {
  }

  // ---------------------------------------------------------------- lists

  /** `conns.map { $0.email }`: one address per contact, same length, same order. */
  function Recipients(conns: seq<ConnectionEmail>): (r: seq<string>)
    ensures |r| == |conns|
    ensures forall i :: 0 <= i < |conns| ==> r[i] == conns[i].email
  {
    if conns == [] then [] else [conns[0].email] + Recipients(conns[1..])
  }

  /** `removeAll(where: drop)`: the elements `drop` rejects, in their order. */
  function RemoveWhere<T>(s: seq<T>, drop: T -> bool): (r: seq<T>)
    ensures |r| <= |s|
  {
    if s == [] then [] else (if drop(s[0]) then [] else [s[0]]) + RemoveWhere(s[1..], drop)
  }

  /** The kept elements are exactly those `drop` rejects, each as often as before. */
  lemma {:induction false} RemoveWhereKeeps<T(!new)>(s: seq<T>, drop: T -> bool)
    ensures forall x :: x in RemoveWhere(s, drop) ==> x in s && !drop(x)
    ensures forall x :: !drop(x) ==> multiset(RemoveWhere(s, drop))[x] == multiset(s)[x]
    decreases |s|
  {
    if s != [] {
      RemoveWhereKeeps(s[1..], drop);
      assert s == [s[0]] + s[1..];
    }
  }

  /** Removal works piece by piece, so the kept elements stay in their relative order. */
  lemma {:induction false} RemoveWhereAppend<T(!new)>(a: seq<T>, b: seq<T>, drop: T -> bool)
    ensures RemoveWhere(a + b, drop) == RemoveWhere(a, drop) + RemoveWhere(b, drop)
    decreases |a|
  {
    if a == [] {
      assert a + b == b;
    } else {
      assert (a + b)[0] == a[0];
      assert (a + b)[1..] == a[1..] + b;
      RemoveWhereAppend(a[1..], b, drop);
    }
  }

  /** Removing what is not there changes nothing. */
  lemma {:induction false} RemoveWhereNothing<T(!new)>(s: seq<T>, drop: T -> bool)
    requires forall i :: 0 <= i < |s| ==> !drop(s[i])
    ensures RemoveWhere(s, drop) == s
    decreases |s|
  {
    if s != [] {
      RemoveWhereNothing(s[1..], drop);
    }
  }

  function FallHasId(id: Uuid): FallRecord -> bool {
    (r: FallRecord) => r.id == id
  }

  function ConnectionHasId(id: Uuid): ConnectionEmail -> bool {
    (c: ConnectionEmail) => c.id == id
  }

  /** Entry `i` is the first contact carrying `id`. */
  predicate IsFirstWithId(conns: seq<ConnectionEmail>, id: Uuid, i: int) {
    0 <= i < |conns| && conns[i].id == id && forall j :: 0 <= j < i ==> conns[j].id != id
  }

  /** `firstIndex(where: { $0.id == id })`. */
  function FirstIndexOf(conns: seq<ConnectionEmail>, id: Uuid): (r: Option<nat>)
    ensures r.Some? ==> IsFirstWithId(conns, id, r.value)
    ensures r.None? ==> forall j :: 0 <= j < |conns| ==> conns[j].id != id
  {
    if conns == [] then None
    else if conns[0].id == id then Some(0)
    else match FirstIndexOf(conns[1..], id)
      case Some(i) =>
        assert forall j :: 1 <= j <= i ==> conns[j] == conns[1..][j - 1];
        Some(i + 1)
      case None =>
        assert forall j :: 1 <= j < |conns| ==> conns[j] == conns[1..][j - 1];
        None
  }

  /** What updateConnection(id:email:) should leave, stated entry by entry: the first
      contact with `id` gets the trimmed address, provided it is not empty. The
      result keeps the length and every id, changes at most one entry (and only
      that entry's address), and leaves everything alone for an empty address or
      an unknown id. */
  function UpdateConnections(conns: seq<ConnectionEmail>, id: Uuid, email: string): (r: seq<ConnectionEmail>)
    ensures |r| == |conns|
    ensures forall i :: 0 <= i < |conns| ==> r[i].id == conns[i].id
    ensures forall i :: 0 <= i < |conns| && r[i] != conns[i] ==>
      IsFirstWithId(conns, id, i) && r[i].email == Trim(email)
    ensures forall i, j :: 0 <= i < j < |conns| ==> r[i] == conns[i] || r[j] == conns[j]
    ensures Trim(email) == [] || (forall i :: 0 <= i < |conns| ==> conns[i].id != id) ==> r == conns
    ensures Trim(email) != [] ==>
      forall i :: IsFirstWithId(conns, id, i) ==> r[i] == conns[i].(email := Trim(email))
  {
    var trim := Trim(email);
    seq(|conns|, i requires 0 <= i < |conns| =>
      if trim != [] && IsFirstWithId(conns, id, i) then conns[i].(email := trim) else conns[i])
  }

  /** Index of the latest-dated record, the head of `sorted(by: { $0.date > $1.date })`;
      among equal dates the earliest entry, as a stable sort leaves it first. */
  function LatestIndex(hist: seq<FallRecord>): (i: nat)
    requires hist != []
    ensures i < |hist|
    ensures forall j :: 0 <= j < |hist| ==> hist[j].date <= hist[i].date
    ensures forall j :: 0 <= j < i ==> hist[j].date < hist[i].date
  {
    if |hist| == 1 then 0
    else
      var k := 1 + LatestIndex(hist[1..]);
      assert forall j :: 1 <= j < |hist| ==> hist[j] == hist[1..][j - 1];
      if hist[0].date >= hist[k].date then 0 else k
  }

  // ---------------------------------------------------------------- notification payload

  /** The `userInfo` of the fall notification: the peak g-force under "fallSpeedG"
      when one is known, and nothing otherwise. */
  function FallPayload(g: Option<real>): (info: Payload)
    ensures SpeedKey in info <==> g.Some?
    ensures g.Some? ==> info[SpeedKey] == DoubleValue(g.value)
    ensures forall k :: k in info ==> k == SpeedKey
  {
    if g.Some? then map[SpeedKey := DoubleValue(g.value)] else map[]
  }

  /** `userInfo["fallSpeedG"] as? Double`. */
  function SpeedOf(info: Payload): (g: Option<real>)
    ensures g.Some? <==> SpeedKey in info && info[SpeedKey].DoubleValue?
    ensures g.Some? ==> info[SpeedKey] == DoubleValue(g.value)
  {
    if SpeedKey in info && info[SpeedKey].DoubleValue? then Some(info[SpeedKey].g) else None
  }

  /** A payload built for the notification is read back as the g-force it carries. */
  lemma PayloadRoundTrip(g: Option<real>)
    ensures SpeedOf(FallPayload(g)) == g
  {
  }

  function FallNoticeFor(g: Option<real>): FallNotice {
    FallNotice(NoticeTitle, NoticeCategory, FallPayload(g))
  }

  // ---------------------------------------------------------------- the email leg

  /** The decision of sendEmailOnTimeout: an email goes out exactly when the profile
      name has a visible character and there is at least one contact; it goes to
      every contact's address in list order, under the trimmed name. */
  function EmailPlan(nm: string, age: Option<int>, lastg: Option<real>, conns: seq<ConnectionEmail>): (r: Option<EmailRequest>)
    ensures r.Some? <==> !AllSpace(nm) && conns != []
    ensures r.Some? ==> r.value.to == Recipients(conns) && r.value.name == Trim(nm)
    ensures r.Some? ==> r.value.age == age && r.value.gForce == lastg
  {
    TrimEmptyIff(nm);
    var n := Trim(nm);
    var recipients := Recipients(conns);
    if n == [] || recipients == [] then None else Some(EmailRequest(recipients, n, age, lastg))
  }

  // ---------------------------------------------------------------- the store

  /** Every field of the store, for stating what a method leaves unchanged. */
  datatype AppState = AppState(
    lastg: Option<real>, hist: seq<FallRecord>, pending: Option<FallRecord>,
    conns: seq<ConnectionEmail>, thrg: real, nm: string, age: Option<int>,
    incd: bool, cooldownTimer: bool, scheduled: seq<FallNotice>, outbox: seq<EmailRequest>)

  /** The record logFallOnTimeout appends: the last known peak, else the threshold. */
  function TimeoutRecord(id: Uuid, now: Date, lastg: Option<real>, thrg: real): FallRecord {
    FallRecord(id, now, if lastg.Some? then lastg.value else thrg)
  }

  function EmailsFor(s: AppState): seq<EmailRequest> {
    match EmailPlan(s.nm, s.age, s.lastg, s.conns)
    case Some(e) => [e]
    case None => []
  }

  /** The store after logFallOnTimeout followed by sendEmailOnTimeout. */
  function AfterTimeout(s: AppState, id: Uuid, now: Date): AppState {
    s.(hist := s.hist + [TimeoutRecord(id, now, s.lastg, s.thrg)], outbox := s.outbox + EmailsFor(s))
  }

  class AppData {
    var lastg: Option<real>
    var hist: seq<FallRecord>
    var pending: Option<FallRecord>
    var conns: seq<ConnectionEmail>
    var thrg: real
    var nm: string
    var age: Option<int>
    /** In the cooldown window: fall notifications are not scheduled. */
    var incd: bool
    /** The cooldown timer is armed and has not fired. */
    var cooldownTimer: bool
    /** Notifications handed to the notification centre, oldest first. */
    var scheduled: seq<FallNotice>
    /** Emails handed to the email service, oldest first. */
    var outbox: seq<EmailRequest>

    /** The threshold is always in range, and the cooldown flag is up exactly
        while its timer is pending. */
    ghost predicate Valid()
      reads this
    {
      MinThreshold <= thrg <= MaxThreshold && (incd <==> cooldownTimer)
    }

    function State(): AppState
      reads this
    {
      AppState(lastg, hist, pending, conns, thrg, nm, age, incd, cooldownTimer, scheduled, outbox)
    }

    /** The store as the app creates it, with the saved history and contacts and
        the saved profile. */
    constructor (savedHist: seq<FallRecord>, savedConns: seq<ConnectionEmail>, name: string, userAge: Option<int>)
      ensures Valid()
      ensures State() == AppState(None, savedHist, None, savedConns, DefaultThreshold, name, userAge, false, false, [], [])
    {
      lastg, hist, pending, conns := None, savedHist, None, savedConns;
      thrg, nm, age := DefaultThreshold, name, userAge;
      incd, cooldownTimer := false, false;
      scheduled, outbox := [], [];
    }

    /** Writing the threshold: the stored value is the clamped one. */
    method SetThreshold(g: real)
      requires Valid()
      modifies this
      ensures Valid()
      ensures State() == old(State()).(thrg := Clamp(g))
    {
      thrg := Clamp(g);
    }

    /** scheduleFallNotification: one more notice, carrying the g-force when known. */
    method ScheduleFallNotification(speedG: Option<real>)
      requires Valid()
      modifies this
      ensures Valid()
      ensures State() == old(State()).(scheduled := old(scheduled) + [FallNoticeFor(speedG)])
    {
      scheduled := scheduled + [FallNoticeFor(speedG)];
    }

    /** handleFallDetected: ignored inside the cooldown window; otherwise exactly one
        notice is scheduled and the window opens until CooldownElapsed. */
    method HandleFallDetected()
      requires Valid()
      modifies this
      ensures Valid()
      ensures old(incd) ==> State() == old(State())
      ensures !old(incd) ==> incd && State() == old(State()).(
        scheduled := old(scheduled) + [FallNoticeFor(old(lastg))], incd := true, cooldownTimer := true)
    {
      if incd {
        return;
      }
      ScheduleFallNotification(lastg);
      incd := true;
      cooldownTimer := true;
    }

    /** The observer of the "fallDetected" broadcast installed by the initializer: a
        `Double` under "fallSpeedG" becomes the last known peak, then the fall is
        handled as by HandleFallDetected. */
    method FallDetectedBroadcast(userInfo: Payload)
      requires Valid()
      modifies this
      ensures Valid()
      ensures var g := if SpeedOf(userInfo).Some? then SpeedOf(userInfo) else old(lastg);
        if old(incd) then State() == old(State()).(lastg := g)
        else State() == old(State()).(lastg := g, scheduled := old(scheduled) + [FallNoticeFor(g)],
          incd := true, cooldownTimer := true)
    {
      if SpeedKey in userInfo && userInfo[SpeedKey].DoubleValue? {
        lastg := Some(userInfo[SpeedKey].g);
      }
      HandleFallDetected();
    }

    /** The ten-second cooldown timer fires and closes the window. */
    method CooldownElapsed()
      requires Valid()
      modifies this
      ensures Valid() && !incd
      ensures State() == if old(cooldownTimer) then old(State()).(incd := false, cooldownTimer := false) else old(State())
    {
      if cooldownTimer {
        incd := false;
        cooldownTimer := false;
      }
    }

    /** logFallOnTimeout: exactly one record at the end of the history, earlier records untouched. */
    method LogFallOnTimeout(id: Uuid, now: Date)
      requires Valid()
      modifies this
      ensures Valid()
      ensures |hist| == |old(hist)| + 1 && hist[..|old(hist)|] == old(hist)
      ensures hist[|old(hist)|].gForce == if old(lastg).Some? then old(lastg).value else old(thrg)
      ensures State() == old(State()).(hist := old(hist) + [TimeoutRecord(id, now, old(lastg), old(thrg))])
    {
      hist := hist + [FallRecord(id, now, if lastg.Some? then lastg.value else thrg)];
    }

    /** sendEmailOnTimeout: one email exactly when EmailPlan says so, else nothing. */
    method SendEmailOnTimeout()
      requires Valid()
      modifies this
      ensures Valid()
      ensures |outbox| == |old(outbox)| + (if !AllSpace(old(nm)) && old(conns) != [] then 1 else 0)
      ensures State() == old(State()).(outbox := old(outbox) + EmailsFor(old(State())))
    {
      ghost var before := State();
      var n := Trim(nm);
      var recipients := Recipients(conns);
      var g := lastg;
      if n == [] || recipients == [] {
        assert EmailsFor(before) == [];
        assert outbox + [] == outbox;
        return;
      }
      assert EmailsFor(before) == [EmailRequest(recipients, n, age, g)];
      outbox := outbox + [EmailRequest(recipients, n, age, g)];
    }

    /** clearHistory: no records left, and the cooldown window closed. */
    method ClearHistory()
      requires Valid()
      modifies this
      ensures Valid()
      ensures State() == old(State()).(hist := [], incd := false, cooldownTimer := false)
    {
      hist := [];
      cooldownTimer := false;
      incd := false;
    }

    /** deleteFall: every record with `id` removed, the rest kept in order. */
    method DeleteFall(id: Uuid)
      requires Valid()
      modifies this
      ensures Valid()
      ensures State() == old(State()).(hist := RemoveWhere(old(hist), FallHasId(id)))
    {
      hist := RemoveWhere(hist, FallHasId(id));
    }

    /** addConnection: nothing for a blank address, else one new contact at the end
        carrying the trimmed address. */
    method AddConnection(id: Uuid, email: string)
      requires Valid()
      modifies this
      ensures Valid()
      ensures State() == if Trim(email) == [] then old(State())
                         else old(State()).(conns := old(conns) + [ConnectionEmail(id, Trim(email))])
    {
      var trim := Trim(email);
      if trim == [] {
        return;
      }
      conns := conns + [ConnectionEmail(id, trim)];
    }

    /** updateConnection: the first contact with `id` gets the trimmed address. */
    method UpdateConnection(id: Uuid, email: string)
      requires Valid()
      modifies this
      ensures Valid()
      ensures State() == old(State()).(conns := UpdateConnections(old(conns), id, email))
    {
      var trim := Trim(email);
      if trim == [] {
        return;
      }
      var idx := FirstIndexOf(conns, id);
      if idx.Some? {
        conns := conns[idx.value := conns[idx.value].(email := trim)];
      }
    }

    /** deleteConnection: every contact with `id` removed, the rest kept in order. */
    method DeleteConnection(id: Uuid)
      requires Valid()
      modifies this
      ensures Valid()
      ensures State() == old(State()).(conns := RemoveWhere(old(conns), ConnectionHasId(id)))
    {
      conns := RemoveWhere(conns, ConnectionHasId(id));
    }

    /** handleNotificationPayload: a payload with a `Double` under "fallSpeedG" makes
        it the last known peak and, when there is history, selects the latest
        record for display; any other payload changes nothing. No history is written. */
    method HandleNotificationPayload(userInfo: Payload)
      requires Valid()
      modifies this
      ensures Valid()
      ensures hist == old(hist)
      ensures SpeedOf(userInfo).None? ==> State() == old(State())
      ensures SpeedOf(userInfo).Some? ==> State() == old(State()).(
        lastg := SpeedOf(userInfo),
        pending := if old(hist) == [] then old(pending) else Some(old(hist)[LatestIndex(old(hist))]))
    {
      if SpeedKey in userInfo && userInfo[SpeedKey].DoubleValue? {
        var g := userInfo[SpeedKey].g;
        lastg := Some(g);
        if hist != [] {
          pending := Some(hist[LatestIndex(hist)]);
        }
      }
    }
  }
}
