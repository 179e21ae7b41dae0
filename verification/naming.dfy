/** The naming helpers the walkers import from `rosdistro`. Their rules are not
    part of this model: every operation that needs them takes them as parameters,
    so every property proved here holds whatever they compute. */
module Naming {

  /** `debianize_package_name(rosdistro, name)` */
  type Debianize = (string, string) -> string

  /** `sanitize_package_name(name)` */
  type Sanitize = string -> string
}
