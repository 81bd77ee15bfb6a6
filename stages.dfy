/** Shader stages and their names (`ModuleType::name`/`kind`,
    gears-pipeline/src/lib.rs). */
module Stages {

  datatype ModuleType = Vertex | Fragment

  /** The stage kind passed to the shader compiler (`shaderc::ShaderKind`). */
  datatype ShaderKind = VertexShader | FragmentShader

  /** The stage's short name: the file name given to the compiler and the
      prefix of the emitted kernel constant. */
  function Name(m: ModuleType): string {
    match m
    case Fragment => "FRAG"
    case Vertex => "VERT"
  }

  function Kind(m: ModuleType): ShaderKind {
    match m
    case Fragment => FragmentShader
    case Vertex => VertexShader
  }

  /** Both maps tell the stages apart, so each stage gets its own compiler
      kind and its own constant name. */
  lemma NameAndKindInjective(a: ModuleType, b: ModuleType)
    ensures Name(a) == Name(b) ==> a == b
    ensures Kind(a) == Kind(b) ==> a == b
  {
  }
}
