/**
 * The operating-system services the tool calls, as values. Each field
 * answers what the corresponding .NET call would answer for the current
 * machine, user and filesystem state; the model assumes that state does not
 * change during a run, so asking twice gives the same answer.
 */
module Platform {

  import opened Wrappers
  import opened Acl

  datatype Host = Host(
    /** `Directory.Exists`. */
    directoryExists: string -> bool,
    /** `Directory.EnumerateFiles(root, "*", ...)` with recursion into
        subdirectories and inaccessible entries skipped, in enumeration order. */
    enumerateFiles: string -> seq<string>,
    /** `Path.GetFullPath`. */
    fullPath: string -> string,
    /** `FileInfo.GetAccessControl().GetAccessRules(true, true, typeof(SecurityIdentifier))`;
        `None` when either call throws. */
    accessRules: string -> Option<seq<Rule>>,
    /** `new WindowsPrincipal(WindowsIdentity.GetCurrent()).IsInRole`. */
    isInRole: Sid -> bool,
    /** `Path.IsPathRooted`. */
    isPathRooted: string -> bool,
    /** `Path.GetInvalidFileNameChars()`, in the order it returns them. */
    invalidFileNameChars: seq<char>
  )

}
