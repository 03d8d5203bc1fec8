/** Paths as the build script joins them: sequences of names. */
module Paths {
  type Path = seq<string>
}
