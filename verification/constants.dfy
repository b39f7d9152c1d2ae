/** The string constants the controller uses. The label keys, annotation keys and
    environment-variable names are declared in constant classes that are not part of
    this model; the values below are stand-ins that follow those declarations' names,
    and the proofs rely only on the values being pairwise distinct. */
module Constants {

  /** The only module type the controller deploys (EdgeDeploymentController.cs line 94). */
  const DockerType := "docker"

  /** The in-cluster host name of the edgeHub module (line 20). */
  const EdgeHubHostname := "edgehub"

  /** The module name of edgeAgent, which names its deployment, and the module
      identity names of edgeAgent and edgeHub, which select the role variables. */
  const EdgeAgentModuleName := "edgeAgent"
  const EdgeAgentModuleIdentityName := "$edgeAgent"
  const EdgeHubModuleIdentityName := "$edgeHub"

  // Label keys put on every deployment, its selector and its service account.
  const ModuleLabel := "net.azure-devices.edge.module"
  const DeviceLabel := "net.azure-devices.edge.deviceid"
  const HubNameLabel := "net.azure-devices.edge.hub"

  // Annotation keys: the stored creation fingerprint, and the back-reference from a
  // service account (and pod template) to the unsanitized module id.
  const CreationString := "net.azure-devices.edge.creationstring"
  const OriginalModuleId := "net.azure-devices.edge.original-moduleid"

  // Environment variables injected into every module.
  const IotHubHostnameVariable := "IOTEDGE_IOTHUBHOSTNAME"
  const AuthSchemeVariable := "IOTEDGE_AUTHSCHEME"
  const SasTokenScheme := "sasToken"
  const RuntimeLogLevelVariable := "RuntimeLogLevel"
  const WorkloadUriVariable := "IOTEDGE_WORKLOADURI"
  const ModuleGenerationIdVariable := "IOTEDGE_MODULEGENERATIONID"
  const DeviceIdVariable := "IOTEDGE_DEVICEID"
  const ModuleIdVariable := "IOTEDGE_MODULEID"
  const ApiVersionVariable := "IOTEDGE_APIVERSION"

  // Environment variables injected into edgeAgent only.
  const ModeVariable := "Mode"
  const KubernetesMode := "kubernetes"
  const ManagementUriVariable := "IOTEDGE_MANAGEMENTURI"
  const NetworkIdVariable := "NetworkId"
  const NetworkId := "azure-iot-edge"
  const ProxyImageVariable := "ProxyImage"
  const ProxyConfigPathVariable := "ProxyConfigPath"
  const ProxyConfigVolumeVariable := "ProxyConfigVolume"
  const ProxyConfigMapNameVariable := "ProxyConfigMapName"
  const ProxyTrustBundlePathVariable := "ProxyTrustBundlePath"
  const ProxyTrustBundleVolumeVariable := "ProxyTrustBundleVolume"
  const ProxyTrustBundleConfigMapVariable := "ProxyTrustBundleConfigMapName"

  // The variable that ends every module's list: the device host name for edgeAgent
  // and edgeHub, the gateway host name for every other module.
  const EdgeDeviceHostNameVariable := "EdgeDeviceHostName"
  const GatewayHostnameVariable := "IOTEDGE_GATEWAYHOSTNAME"
}
