/** Outcomes of the geometry calculations: a value, or the fatal error the
    source raises (a `BoutException` or a non-zero return code). */
module Results {

  datatype Result<+T, +E> = Ok(value: T) | Err(error: E) {
    predicate IsFailure() {
      Err?
    }

    function PropagateFailure<U>(): Result<U, E>
      requires Err?
    {
      Err(error)
    }

    function Extract(): T
      requires Ok?
    {
      value
    }
  }

  datatype Option<+T> = None | Some(value: T)

  /** Every fatal condition of the modelled core, one constructor per message. */
  datatype Error =
    | MetricSingular(x: int, y: int)       // calcCovariant / calcContravariant
    | DeterminantNegative                  // jacobian: det g^ij < 0
    | JacobianNotFinite                    // jacobian: 1/sqrt(0)
    | JacobianTooSmall                     // jacobian: |J| < 1e-10
    | CovariantG22Negative                 // jacobian: g_22 < 0
    | DxTooSmall                           // geometry: |dx| < 1e-8
    | DyTooSmall                           // geometry: |dy| < 1e-8
    | DzTooSmall                           // geometry: |dz| < 1e-8
    | DiagonalMetricNotFinite              // geometry: g^ii not finite
    | DiagonalMetricNotPositive            // geometry: g^ii <= 0
    | OffDiagonalMetricNotFinite           // geometry: g^ij (i != j) not finite
    | DiagonalCovariantNotFinite           // geometry: g_ii not finite
    | DiagonalCovariantNotPositive         // geometry: g_ii <= 0
    | OffDiagonalCovariantNotFinite        // geometry: g_ij (i != j) not finite
    | NotEnoughPointsX                     // interpolateAndExtrapolate
    | NotEnoughPointsY                     // interpolateAndExtrapolate
    | CornerNeedsTwoGuardCells             // interpXLOWToXYCorner
    | LocationMismatch                     // location assertions
}
