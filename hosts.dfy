/** The host-name table of panes/utils.py: fully qualified login-node names
    mapped to the cluster each belongs to. */
module Hosts {

  const KnownHosts: map<string, string> := map[
    "tigercpu.princeton.edu" := "tiger",
    "tigergpu.princeton.edu" := "tiger",
    "della5.princeton.edu" := "della",
    "perseus" := "perseus",
    "traverse.princeton.edu" := "traverse",
    "adroit4" := "adroit",
    "tigressdata2.princeton.edu" := "tigressdata"
  ]
}
