/**
 The periodic interrupt sources of the LPC802 that a display role (refresh,
 counting, transition) can be bound to. The C code selects them by name
 ("SysTick", "WKT", "MRT0", "MRT1", "CTIMER0"); here the names form a closed set.
 */
module Clocks {

  datatype Clock = SysTick | WKT | MRT0 | MRT1 | CTIMER0
}
