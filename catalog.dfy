/**
 * The static catalog of the OLGA tab format: the three boolean fluid options
 * that may appear on the fluid header line, and the property tables, each with
 * the header phrase that introduces its section and a description. The catalog
 * order is the order in which the reader tries the phrases.
 */
module Catalog {
  import opened Results
  import opened Text

  /** The boolean options of the fluid header line (olga_tab_parameters). */
  datatype Flag = WaterOption | Entropy | Noneq

  /** The order in which the header line is searched for the options. */
  const FLAG_ORDER: seq<Flag> := [WaterOption, Entropy, Noneq]

  /** The keyword that switches an option on. */
  function Keyword(f: Flag): (k: string)
    ensures k != [] && Literal(k) && ' ' !in k
  {
    match f
    case WaterOption => "WATER-OPTION"
    case Entropy => "ENTROPY"
    case Noneq => "NONEQ"
  }

  /** The property tables of a tab file (olga_tab_properties), named as in the format. */
  datatype PropertyId =
    | ROGTB | ROOTB | ROWTB
    | DRGPTB | DROPTB | DRWPTB
    | DRGTTB | DROTTB | DRWTTB
    | RSGTB | RSWTB
    | VSGTB | VSOTB | VSWTB
    | CPGTB | CPOTB | CPWTB
    | HGTB | HOTB | HWTB
    | TKGTB | TKOTB | TKWTB
    | SIGOGT | SIGWGT | SIGWOT
    | SGTB | SOTB | SWTB

  /** The catalog order. */
  const ORDER: seq<PropertyId> := [
    ROGTB, ROOTB, ROWTB,
    DRGPTB, DROPTB, DRWPTB,
    DRGTTB, DROTTB, DRWTTB,
    RSGTB, RSWTB,
    VSGTB, VSOTB, VSWTB,
    CPGTB, CPOTB, CPWTB,
    HGTB, HOTB, HWTB,
    TKGTB, TKOTB, TKWTB,
    SIGOGT, SIGWGT, SIGWOT,
    SGTB, SOTB, SWTB]

  /** The position of a property in the catalog order. */
  function Rank(id: PropertyId): (k: nat)
    ensures k < |ORDER| && ORDER[k] == id
  {
    match id
    case ROGTB => 0 case ROOTB => 1 case ROWTB => 2
    case DRGPTB => 3 case DROPTB => 4 case DRWPTB => 5
    case DRGTTB => 6 case DROTTB => 7 case DRWTTB => 8
    case RSGTB => 9 case RSWTB => 10
    case VSGTB => 11 case VSOTB => 12 case VSWTB => 13
    case CPGTB => 14 case CPOTB => 15 case CPWTB => 16
    case HGTB => 17 case HOTB => 18 case HWTB => 19
    case TKGTB => 20 case TKOTB => 21 case TKWTB => 22
    case SIGOGT => 23 case SIGWGT => 24 case SIGWOT => 25
    case SGTB => 26 case SOTB => 27 case SWTB => 28
  }

  /** Every property appears in the catalog exactly once. */
  lemma OrderIsPermutation()
    ensures forall k :: 0 <= k < |ORDER| ==> Rank(ORDER[k]) == k
    ensures forall id :: id in ORDER
  {
    forall id ensures id in ORDER {
      assert ORDER[Rank(id)] == id;
    }
  }

  /** A search pattern that is not empty. */
  type Pattern = p: string | |p| > 0 witness "."

  /** Search phrases of the densities and their pressure and temperature derivatives. */
  const DENSITY_PHRASES: seq<Pattern> := [
    "GAS DENSITY",
    "LIQUID DENSITY",
    "WATER DENSITY",
    "PRES. DERIV. OF GAS DENS.",
    "PRES. DERIV. OF LIQUID DENS.",
    "PRES. DERIV. OF WATER DENS.",
    "TEMP. DERIV. OF GAS DENS.",
    "TEMP. DERIV. OF LIQUID DENS.",
    "TEMP. DERIV. OF WATER DENS."]

  /** Search phrases of the mass fractions, viscosities and specific heats. */
  const TRANSPORT_PHRASES: seq<Pattern> := [
    "GAS MASS FRACTION OF GAS . OIL",
    "WATER MASS FRACTION OF GAS",
    "GAS VISCOSITY",
    "LIQ. VISCOSITY",
    "WAT. VISCOSITY",
    "GAS SPECIFIC HEAT",
    "LIQ. SPECIFIC HEAT",
    "WAT. SPECIFIC HEAT"]

  /** Search phrases of the enthalpies and thermal conductivities. */
  const ENERGY_PHRASES: seq<Pattern> := [
    "GAS ENTHALPY",
    "LIQ. ENTHALPY",
    "WAT. ENTHALPY",
    "GAS THERMAL COND.",
    "LIQ. THERMAL COND.",
    "WAT. THERMAL COND."]

  /** Search phrases of the surface tensions and entropies. */
  const SURFACE_ENTROPY_PHRASES: seq<Pattern> := [
    "SURFACE TENSION GAS/OIL",
    "SURFACE TENSION GAS/WATER",
    "SURFACE TENSION WATER/OIL",
    "GAS ENTROPY",
    "LIQUID ENTROPY",
    "WATER ENTROPY"]

  /** The search phrases of the catalog, in catalog order: the phrase at k opens the section of ORDER[k]. */
  const PHRASES: seq<Pattern> := DENSITY_PHRASES + TRANSPORT_PHRASES + ENERGY_PHRASES + SURFACE_ENTROPY_PHRASES

  /**
   * The phrase whose occurrence on a line opens the property's section. The
   * texts themselves are fixed by the four phrase constants above, entry by
   * entry in catalog order; the ensures adds only that none is empty.
   */
  function Phrase(id: PropertyId): (p: string)
    ensures p != []
  {
    PHRASES[Rank(id)]
  }

  /** The human-readable description stored with the property's table. */
  function Description(id: PropertyId): string
  {
    match id
    case ROGTB => "Gas densities"
    case ROOTB => "Oil densities"
    case ROWTB => "Water densities"
    case DRGPTB => "Partial derivatives of gas densities with respect to pressure"
    case DROPTB => "Partial derivatives of oil densities with respect to pressure"
    case DRWPTB => "Partial derivatives of water densities with respect to pressure"
    case DRGTTB => "Partial derivatives of gas densities with respect to temperature"
    case DROTTB => "Partial derivatives of oil densities with respect to temperature"
    case DRWTTB => "Partial derivatives of water densities with respect to temperature"
    case RSGTB => "Gas mass fraction in gas and oil mixture; the gas mass divided by the gas and oil mass"
    case RSWTB => "Water vapour mass fraction in the gas phase"
    case VSGTB => "Dynamic viscosity for gas"
    case VSOTB => "Dynamic viscosity for oil"
    case VSWTB => "Dynamic viscosity for water"
    case CPGTB => "Gas heat capacity at constant pressure"
    case CPOTB => "Oil heat capacity at constant pressure"
    case CPWTB => "Water heat capacity at constant pressure"
    case HGTB => "Gas enthalpy"
    case HOTB => "Oil enthalpy"
    case HWTB => "Water enthalpy"
    case TKGTB => "Gas thermal conductivity"
    case TKOTB => "Oil thermal conductivity"
    case TKWTB => "Water thermal conductivity"
    case SIGOGT => "Surface tension between gas and oil"
    case SIGWGT => "Surface tension between gas and water"
    case SIGWOT => "Surface tension between water and oil"
    case SGTB => "Gas specific entropy"
    case SOTB => "Oil specific entropy"
    case SWTB => "Water specific entropy"
  }

  /** The position of the first of pats, at or after k, that occurs in s. */
  function FirstMatchFrom(s: string, pats: seq<string>, k: nat): (r: Option<nat>)
    requires k <= |pats|
    ensures r.Some? ==> k <= r.value < |pats|
    decreases |pats| - k
  {
    if k == |pats| then None
    else if Contains(s, pats[k]) then Some(k)
    else FirstMatchFrom(s, pats, k + 1)
  }

  /** The pattern found occurs in s and none before it does; none found means none occurs. */
  lemma {:induction false} FirstMatchFromFirst(s: string, pats: seq<string>, k: nat)
    requires k <= |pats|
    ensures var r := FirstMatchFrom(s, pats, k);
      && (r.Some? ==> Contains(s, pats[r.value]))
      && (r.Some? ==> forall m :: k <= m < r.value ==> !Contains(s, pats[m]))
      && (r.None? ==> forall m :: k <= m < |pats| ==> !Contains(s, pats[m]))
    decreases |pats| - k
  {
    if k < |pats| && !Contains(s, pats[k]) {
      FirstMatchFromFirst(s, pats, k + 1);
    }
  }

  /** The search over the catalog phrases, read in terms of the properties they open. */
  lemma FirstMatchClassifies(s: string)
    ensures var r := FirstMatchFrom(s, PHRASES, 0);
      && (r.Some? ==> r.value < |ORDER| && Contains(s, Phrase(ORDER[r.value])))
      && (r.Some? ==> forall id :: Rank(id) < r.value ==> !Contains(s, Phrase(id)))
      && (r.None? <==> forall id :: !Contains(s, Phrase(id)))
  {
    var r := FirstMatchFrom(s, PHRASES, 0);
    FirstMatchFromFirst(s, PHRASES, 0);
    OrderIsPermutation();
    if r.Some? {
      assert Phrase(ORDER[r.value]) == PHRASES[r.value];
    } else {
      forall id ensures !Contains(s, Phrase(id)) {
        assert Phrase(id) == PHRASES[Rank(id)];
      }
    }
  }

  /**
   * The property whose section a line opens: the first entry, in catalog
   * order, whose phrase occurs in the line.
   */
  function Classify(s: string): (r: Option<PropertyId>)
    ensures r.Some? ==> Contains(s, Phrase(r.value))
    ensures r.Some? ==> forall id :: Rank(id) < Rank(r.value) ==> !Contains(s, Phrase(id))
    ensures r.None? <==> forall id :: !Contains(s, Phrase(id))
  {
    OrderIsPermutation();
    FirstMatchClassifies(s);
    match FirstMatchFrom(s, PHRASES, 0)
    case None => None
    case Some(k) => Some(ORDER[k])
  }
}
