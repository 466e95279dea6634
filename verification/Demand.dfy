/** Purge windows of classes, and the demand they and the live hosts put on the cluster. */
module Demand {
  import opened Common
  import opened Autoscale

  type ClassId = int

  /** A class that has both ends of its purge window set. */
  datatype ClassRow = ClassRow(id: ClassId, purgeAfter: Time, purgeBy: Time, students: nat)

  datatype HostRow = HostRow(isMia: bool, isPurgeable: bool, appState: Option<string>, nodeName: Option<string>,
                             classId: Option<ClassId>)

  datatype Zone = Protected | Active | Dormant

  /** The reaper's case split. */
  function ZoneOf(purgeAfter: Time, purgeBy: Time, now: Time): Zone {
    if now < purgeAfter then Protected else if now >= purgeBy then Dormant else Active
  }

  /** AUTOSCALE_ROSTER_FRACTION as an exact rational. */
  datatype Fraction = Fraction(num: nat, den: nat)

  function Live(hosts: seq<HostRow>): nat {
    |Filter(hosts, (h: HostRow) => !h.isMia && !h.isPurgeable)|
  }

  function Pending(hosts: seq<HostRow>): nat {
    |Filter(hosts, (h: HostRow) => h.appState != Some("ready") && !h.isMia)|
  }

  /** The seats a class may need: a rounded-up fraction of its roster. */
  function Seats(c: ClassRow, f: Fraction): nat
    requires f.den > 0
  {
    CeilDiv(c.students * f.num, f.den)
  }

  /** Seats of the classes in their active zone. */
  function Prescale(classes: seq<ClassRow>, now: Time, f: Fraction): nat
    requires f.den > 0
  {
    if classes == [] then 0
    else (if ZoneOf(classes[0].purgeAfter, classes[0].purgeBy, now) == Active then Seats(classes[0], f) else 0)
         + Prescale(classes[1..], now, f)
  }

  /** Seats are the least whole number at or above the fraction of the roster. */
  lemma SeatsAreLeast(c: ClassRow, f: Fraction)
    requires f.den > 0
    ensures (Seats(c, f) - 1) * f.den < c.students * f.num <= Seats(c, f) * f.den
  {
    var a, q, r := c.students * f.num, c.students * f.num / f.den, c.students * f.num % f.den;
    CeilDivByParts(a, f.den);
    assert (q + 1) * f.den == q * f.den + f.den;
    assert (q - 1) * f.den == q * f.den - f.den;
  }

  /** A host counts as live unless MIA or purgeable, and as pending unless ready or MIA: it may count as both. */
  lemma HostsAppend(hosts: seq<HostRow>, h: HostRow)
    ensures Live([]) == 0 && Pending([]) == 0
    ensures Live(hosts + [h]) == Live(hosts) + (if h.isMia || h.isPurgeable then 0 else 1)
    ensures Pending(hosts + [h]) == Pending(hosts) + (if h.isMia || h.appState == Some("ready") then 0 else 1)
  {
    var live, pending := (x: HostRow) => !x.isMia && !x.isPurgeable, (x: HostRow) => x.appState != Some("ready") && !x.isMia;
    FilterConcat(hosts, [h], live);
    FilterOne(h, live);
    FilterConcat(hosts, [h], pending);
    FilterOne(h, pending);
  }

  /** A class adds its seats while its window is open, and nothing before or after. */
  lemma ClassAppend(classes: seq<ClassRow>, c: ClassRow, now: Time, f: Fraction)
    requires f.den > 0
    ensures Prescale([], now, f) == 0
    ensures var gain := Prescale(classes + [c], now, f) - Prescale(classes, now, f);
      && (c.purgeAfter <= now < c.purgeBy ==> (gain - 1) * f.den < c.students * f.num <= gain * f.den)
      && (!(c.purgeAfter <= now < c.purgeBy) ==> gain == 0)
  {
    PrescaleAppend(classes, c, now, f);
    SeatsAreLeast(c, f);
  }

  lemma {:induction false} PrescaleAppend(classes: seq<ClassRow>, c: ClassRow, now: Time, f: Fraction)
    requires f.den > 0
    ensures Prescale(classes + [c], now, f) == Prescale(classes, now, f)
         + (if ZoneOf(c.purgeAfter, c.purgeBy, now) == Active then Seats(c, f) else 0)
  {
    if classes == [] {
      assert [c][1..] == [];
    } else {
      assert (classes + [c])[1..] == classes[1..] + [c];
      PrescaleAppend(classes[1..], c, now, f);
    }
  }

  /** A class adds to prescale exactly in the zone in which the reaper calls it active (given students to seat). */
  lemma ActiveIffPrescaled(classes: seq<ClassRow>, c: ClassRow, now: Time, f: Fraction)
    requires f.den > 0 && f.num > 0 && c.students > 0
    ensures Prescale(classes + [c], now, f) > Prescale(classes, now, f)
       <==> c.purgeAfter <= now < c.purgeBy
    ensures c.purgeAfter <= now < c.purgeBy <==> ZoneOf(c.purgeAfter, c.purgeBy, now) == Active
  {
    PrescaleAppend(classes, c, now, f);
    SeatsPositive(c.students * f.num, f.den);
  }

  lemma SeatsPositive(a: nat, b: nat)
    requires b > 0
    ensures a > 0 ==> CeilDiv(a, b) > 0
  {
    if a > 0 {
      CeilDivByParts(a, b);
    }
  }

  /** The larger of what runs or starts and what active classes may need, plus the headroom. */
  method EstimateDemand(classes: seq<ClassRow>, hosts: seq<HostRow>, now: Time, f: Fraction, cfg: Config) returns (demand: int)
    requires f.den > 0
    ensures demand == Max(Live(hosts) + Pending(hosts), Prescale(classes, now, f)) + cfg.headroom
  {
    var prescale := 0;
    for i := 0 to |classes|
      invariant prescale == Prescale(classes[..i], now, f)
    {
      var c := classes[i];
      assert classes[..i + 1] == classes[..i] + [c];
      PrescaleAppend(classes[..i], c, now, f);
      if c.purgeAfter <= now < c.purgeBy {
        prescale := prescale + Seats(c, f);
      }
    }
    assert classes[..|classes|] == classes;
    demand := Max(Live(hosts) + Pending(hosts), prescale) + cfg.headroom;
  }
}
