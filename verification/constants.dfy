/** The markup conventions FitTable reads from its Constants class. That class is not part
    of this model, so the values are left unspecified: every property below holds whatever
    they are. */
module Constants {
  /** Table attribute that selects the attribute-style header and names the fixture. */
  const ATTR_FIXTURE: string
  /** Prefix of the table attributes that carry arguments in the attribute-style header. */
  const ATTR_ARGUMENT_PREFIX: string

  const CSS_RIGHT: string
  const CSS_WRONG: string
  const CSS_EXCEPTION: string
  /** Class of the cells of the synthetic feedback column. */
  const CSS_FEEDBACK_COLUMN: string
}
