/** The two rule tables, each indexed by a live-neighbour count 0..8.

    The names follow the component: `birth[n]` decides whether a dead cell
    with `n` live neighbours comes alive, and `death[n]` decides whether a
    live cell with `n` live neighbours is alive next generation. Despite its
    name, a `true` entry in `death` keeps the cell alive; it is a survival
    table. */
module Rules {

  /** Entries 0..8, one per possible live-neighbour count. */
  const TableSize: nat := 9

  datatype RuleTables = RuleTables(birth: seq<bool>, death: seq<bool>)

  predicate Valid(rules: RuleTables) {
    |rules.birth| == TableSize && |rules.death| == TableSize
  }

  /** The start-up tables: birth on exactly 3 neighbours, `death` (survival)
      on exactly 2 or 3 neighbours. */
  function Defaults(): (r: RuleTables)
    ensures Valid(r)
    ensures forall n :: 0 <= n < TableSize ==> (r.birth[n] <==> n == 3)
    ensures forall n :: 0 <= n < TableSize ==> (r.death[n] <==> n == 2 || n == 3)
  {
    RuleTables([false, false, false, true, false, false, false, false, false],
               [false, false, true, true, false, false, false, false, false])
  }

  /** Sets entry `i` of the birth table; the death table and every other birth
      entry are kept. There is no setter for the death table. */
  function SetBirthRule(rules: RuleTables, i: nat, value: bool): (r: RuleTables)
    requires Valid(rules) && i < TableSize
    ensures Valid(r)
    ensures r.birth[i] == value
    ensures forall n :: 0 <= n < TableSize && n != i ==> r.birth[n] == rules.birth[n]
    ensures r.death == rules.death
  {
    rules.(birth := rules.birth[i := value])
  }

  /** Setting an entry twice keeps only the second value. */
  lemma SetBirthRuleLastWins(rules: RuleTables, i: nat, v1: bool, v2: bool)
    requires Valid(rules) && i < TableSize
    ensures SetBirthRule(SetBirthRule(rules, i, v1), i, v2) == SetBirthRule(rules, i, v2)
  {
  }

  /** Writing back the value an entry already holds changes nothing. */
  lemma SetBirthRuleSameValue(rules: RuleTables, i: nat)
    requires Valid(rules) && i < TableSize
    ensures SetBirthRule(rules, i, rules.birth[i]) == rules
  {
  }
}
