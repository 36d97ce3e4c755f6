/** The scoring rubric that the prompt (app.py:42-47) and the form's
    description (app.py:133-138) state in words. The program never
    evaluates it: the language model is asked to apply it. It is stated
    here as a function of which of the four facts match. */
module Rubric {

  /** The condition of each tier: tier 1 the total amount, tier 2 the
      amount and the date or the name, tier 3 the amount, the date and the
      name, tier 4 all of those and an additional identifier. Tier 0 asks
      for nothing. The prompt's "ONLY the total amount" for tier 1 is met
      here by the amount alone; the score then reads it as "without date
      or name", so an identifier on top of the amount alone still gives
      1. */
  predicate TierMet(tier: int, amount: bool, date: bool, name: bool, identifier: bool) {
    match tier
    case 0 => true
    case 1 => amount
    case 2 => amount && (date || name)
    case 3 => amount && date && name
    case 4 => amount && date && name && identifier
    case _ => false
  }

  /** The points awarded for the four match flags. */
  function Score(amount: bool, date: bool, name: bool, identifier: bool): (r: int)
    ensures 0 <= r <= 4
    ensures r == 0 <==> !amount
    ensures r == 1 <==> amount && !date && !name
    ensures r == 2 <==> amount && date != name
    ensures r == 3 <==> amount && date && name && !identifier
    ensures r == 4 <==> amount && date && name && identifier
  {
    if !amount then 0
    else if date && name then (if identifier then 4 else 3)
    else if date || name then 2
    else 1
  }

  /** The score is the highest tier whose condition holds: the tiers are
      not added up. */
  lemma ScoreIsHighestTierMet(amount: bool, date: bool, name: bool, identifier: bool)
    ensures TierMet(Score(amount, date, name, identifier), amount, date, name, identifier)
    ensures forall tier :: Score(amount, date, name, identifier) < tier ==> !TierMet(tier, amount, date, name, identifier)
  {
  }

  /** One more matching fact never lowers the score. */
  lemma ScoreIsMonotone(amount: bool, date: bool, name: bool, identifier: bool,
                        amount': bool, date': bool, name': bool, identifier': bool)
    requires amount ==> amount'
    requires date ==> date'
    requires name ==> name'
    requires identifier ==> identifier'
    ensures Score(amount, date, name, identifier) <= Score(amount', date', name', identifier')
  {
  }

  /** A matching identifier only counts on top of amount, date and name. */
  lemma IdentifierAloneAddsNothing(amount: bool, date: bool, name: bool)
    requires !(amount && date && name)
    ensures Score(amount, date, name, true) == Score(amount, date, name, false)
  {
  }
}
