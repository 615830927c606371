/** How the two reuse-buffer variants differ on the same history. */
module ReuseBufferVariants {
  import opened MachineTypes
  import VectorReuseBuffer
  import ScalarReuseBuffer

  /** After recording an instruction with no operands, the older buffer
      reports it as contained and the newer one does not. */
  lemma EmptyOperandsDiffer(pc: Addr, r: RegVal)
    ensures ScalarReuseBuffer.AnyMatch(ScalarReuseBuffer.Inserted([], ScalarReuseBuffer.Entry(pc, [], r)), pc, [])
    ensures !VectorReuseBuffer.ContainsKey(VectorReuseBuffer.Inserted([], VectorReuseBuffer.MakeEntry(pc, [], [r])), pc, [])
  {
    ScalarReuseBuffer.InsertThenContains([], pc, [], r);
  }
}
