/** The check on a value with a mask of the bits it selects. */
module NlaBitfield {

  /** `validate_nla_bitfield32` with a mask of the bits that are allowed. */
  predicate BitfieldOk(mask: bv32, value: bv32, selector: bv32) {
    selector & !mask == 0 && value & !mask == 0 && value & !selector == 0
  }

  lemma Selected(mask: bv32, value: bv32, selector: bv32)
    requires selector & !mask == 0 && value & !selector == 0
    ensures value & !mask == 0
  {
  }

  /** The second test never decides: exactly the fields pass that select nothing outside the mask and
      set nothing they do not select. */
  lemma BitfieldExact(mask: bv32, value: bv32, selector: bv32)
    ensures BitfieldOk(mask, value, selector) <==> selector & !mask == 0 && value & !selector == 0
  {
    if selector & !mask == 0 && value & !selector == 0 { Selected(mask, value, selector); }
  }
}
