/** The stored objects of one environment namespace, as far as the reconcilers read them. */
module Api {

  type Labels = map<string, string>

  const CLUSTER_TYPE_LABEL := "cluster-type"
  const DEPLOYMENT_TARGET_LABEL := "deployment-target"
  const WORKLOAD_LABEL := "workload"
  const WORKSPACE_LABEL := "workspace"
  const PLATFORM_CONFIG_LABEL := "platform-config"
  const FLUX_OWNER_LABEL := "kustomize.toolkit.fluxcd.io/name"
  const FLUX_NAMESPACE_LABEL := "kustomize.toolkit.fluxcd.io/namespace"

  /** Reading a missing key of a Go string map yields the empty string. */
  function Lookup(m: Labels, key: string): string {
    if key in m then m[key] else ""
  }

  datatype ClusterType = ClusterType(name: string, labels: Labels)

  datatype TargetSpec = TargetSpec(environment: string, manifests: Labels, schemas: seq<string>)

  datatype DeploymentTarget = DeploymentTarget(name: string, labels: Labels, spec: TargetSpec)
  {
    function Workspace(): string {
      Lookup(labels, WORKSPACE_LABEL)
    }

    function Workload(): string {
      Lookup(labels, WORKLOAD_LABEL)
    }
  }

  datatype PackageSpec = PackageSpec(
    reconcilerManifests: seq<string>, reconcilerContentType: string,
    namespaceManifests: seq<string>, namespaceContentType: string,
    configManifests: seq<string>, configContentType: string)

  const NO_PACKAGE := PackageSpec([], "", [], "", [], "")

  datatype Package = Package(labels: Labels, spec: PackageSpec)
}
