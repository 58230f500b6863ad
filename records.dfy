/** Rows of the four tables of the memory store, the errors its operations
    report and the payloads they return on success. */
module Records {

  datatype Option<+T> = None | Some(value: T)

  /** A row of `entities`: `name` is UNIQUE, `created_at` is set on insert. */
  datatype Entity = Entity(id: nat, name: string, entityType: string, createdAt: nat)

  /** A row of `observations`, owned by the entity whose id is `entityId`. */
  datatype Observation = Observation(id: nat, entityId: nat, content: string, createdAt: nat)

  /** A row of `relations`: a typed edge from `fromId` to `toId`. */
  datatype Relation = Relation(id: nat, fromId: nat, toId: nat, relationType: string, createdAt: nat)

  /** A row of `directive_runs`; the nullable columns are options. */
  datatype Run = Run(
    id: nat,
    directiveName: string,
    startedAt: nat,
    endedAt: Option<nat>,
    status: string,
    errorMessage: Option<string>,
    notes: Option<string>,
    inputSummary: Option<string>,
    outputSummary: Option<string>)

  /** The CHECK constraint on `directive_runs.status`. */
  predicate IsStatus(s: string) {
    s == "started" || s == "success" || s == "failed" || s == "partial"
  }

  /** The errors the store's operations report. `StatusRejected` stands for the
      IntegrityError the engine raises when the CHECK constraint on a run's
      status fails; the source returns no error dictionary for it. */
  datatype Error =
    | EntityExists(name: string)
    | EntityNotFound(name: string)
    | ObservationNotFound(id: int)
    | RelationExists
    | StatusRejected(status: string)
  {
    /** The message of the error dictionary the store returns. The text for
        `StatusRejected` is the model's own wording. */
    function Message(): (r: string)
      ensures (EntityExists? || EntityNotFound?) ==>
        |r| > 8 + |name| && r[..8] == "Entity '" && r[8..8 + |name|] == name
      ensures EntityExists? ==> r[8 + |name|..] == "' already exists"
      ensures EntityNotFound? ==> r[8 + |name|..] == "' not found"
      ensures ObservationNotFound? ==>
        && |r| > 22 && r[..12] == "Observation "
        && r[12..|r| - 10] == Decimal(id) && r[|r| - 10..] == " not found"
      ensures RelationExists? ==> r == "Relation already exists"
    {
      match this
      case EntityExists(n) => "Entity '" + n + "' already exists"
      case EntityNotFound(n) => "Entity '" + n + "' not found"
      case ObservationNotFound(i) => "Observation " + Decimal(i) + " not found"
      case RelationExists => "Relation already exists"
      case StatusRejected(s) => "CHECK constraint failed: status"
    }
  }

  /** Equal messages come from the same error: every dictionary the source
      builds tells the caller which error it is and, where there is one, the
      name or id it concerns. */
  lemma {:induction false} MessageIdentifiesError(a: Error, b: Error)
    requires a.Message() == b.Message()
    ensures a == b || (a.StatusRejected? && b.StatusRejected?)
  {
    var ma, mb := a.Message(), b.Message();
    assert ma[0] == mb[0] && ma[|ma| - 1] == mb[|mb| - 1];
    match a
    case EntityExists(n) =>
      assert ma[0] == 'E' && ma[|ma| - 1] == 's';
      if b.EntityExists? {
        StripAffixes("Entity '", n, b.name, "' already exists");
      }
    case EntityNotFound(n) =>
      assert ma[0] == 'E' && ma[|ma| - 1] == 'd';
      if b.EntityNotFound? {
        StripAffixes("Entity '", n, b.name, "' not found");
      }
    case ObservationNotFound(i) =>
      assert ma[0] == 'O';
      if b.ObservationNotFound? {
        StripAffixes("Observation ", Decimal(i), Decimal(b.id), " not found");
        DecimalInjective(i, b.id);
      }
    case RelationExists =>
      assert ma[0] == 'R';
    case StatusRejected(_) =>
      assert ma[0] == 'C';
  }

  /** The text between a fixed prefix and a fixed suffix is determined. */
  lemma StripAffixes(p: string, x: string, y: string, q: string)
    requires p + x + q == p + y + q
    ensures x == y
  {
    var s := p + x + q;
    assert |x| == |y|;
    assert x == s[|p|..|p| + |x|];
    assert y == (p + y + q)[|p|..|p| + |y|];
  }

  datatype Result<+T> = Ok(value: T) | Err(error: Error)

  /** Payloads of the successful results. */
  datatype EntityCreated = EntityCreated(id: nat, name: string, entityType: string, observations: seq<string>)
  datatype ObservationAdded = ObservationAdded(id: nat, entity: string, content: string)
  datatype RelationCreated = RelationCreated(fromName: string, toName: string, relationType: string)
  datatype RunEnded = RunEnded(runId: int, status: string)
  datatype RunLogged = RunLogged(runId: nat, directive: string, status: string)

  /** Column accessors, used as keys by the generic sequence operations. */
  function EntityId(e: Entity): (id: int) { e.id }
  function EntityName(e: Entity): (name: string) { e.name }
  function EntityCreatedAt(e: Entity): (at: int) { e.createdAt }
  function ObservationId(o: Observation): (id: int) { o.id }
  function RelationId(r: Relation): (id: int) { r.id }
  function RelationTriple(r: Relation): (triple: (int, int, string)) { (r.fromId, r.toId, r.relationType) }
  function RunId(r: Run): (id: int) { r.id }
  function RunStartedAt(r: Run): (at: int) { r.startedAt }

  /** Decimal rendering of an integer, as Python's `str` writes it. */
  function Decimal(i: int): (r: string)
    ensures |r| > 0 && (r[0] == '-' <==> i < 0)
  {
    if i < 0 then "-" + NatDecimal(-i) else NatDecimal(i)
  }

  /** The digits of `n`, most significant first, with no leading zero. */
  function NatDecimal(n: nat): (r: string)
    ensures |r| > 0 && forall k :: 0 <= k < |r| ==> '0' <= r[k] <= '9'
    ensures (|r| == 1) == (n < 10)
    decreases n
  {
    var digit := ['0' + (n % 10) as char];
    if n < 10 then digit else NatDecimal(n / 10) + digit
  }

  /** Different numbers are written differently. */
  lemma {:induction false} NatDecimalInjective(m: nat, n: nat)
    requires NatDecimal(m) == NatDecimal(n)
    ensures m == n
    decreases n
  {
    var s := NatDecimal(n);
    assert s[|s| - 1] == '0' + (n % 10) as char;
    assert s[|s| - 1] == '0' + (m % 10) as char;
    if n >= 10 {
      assert NatDecimal(m / 10) == s[..|s| - 1] == NatDecimal(n / 10);
      NatDecimalInjective(m / 10, n / 10);
    }
  }

  lemma DecimalInjective(i: int, j: int)
    requires Decimal(i) == Decimal(j)
    ensures i == j
  {
    if i < 0 {
      assert NatDecimal(-i) == Decimal(i)[1..] == NatDecimal(-j);
      NatDecimalInjective(-i, -j);
    } else {
      NatDecimalInjective(i, j);
    }
  }
}
