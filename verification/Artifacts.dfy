/** What artifacts are, for the store that writes them and the bundles that export them
    (crates/pengu-mesh-shared/src/types.rs). SHA-256 is an arbitrary function of the content. */
module Artifacts {
  import opened Common

  datatype ArtifactKind = Screenshot | Pdf | Snapshot | Text | Trace | Recording

  type Hash = Bytes -> string
}
