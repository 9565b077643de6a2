/** The landmark record produced by the pose estimator: a position in the
    estimator's normalised frame and an optional detection confidence. */
module Landmarks {
  import opened Wrappers

  /** `visibility` is `undefined` in the source when the estimator gives no
      confidence for the point; that is `None` here. */
  datatype Landmark = Landmark(x: real, y: real, z: real, visibility: Option<real>)

  /** The all-zero landmark that averaging falls back on. */
  const Origin: Landmark := Landmark(0.0, 0.0, 0.0, Some(0.0))
}
