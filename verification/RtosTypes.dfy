/** rtos_status_t (include/rtos_types.h). */
module RtosTypes {
  datatype RtosStatus =
    | RTOS_OK
    | RTOS_ERROR
    | RTOS_ERROR_TIMEOUT
    | RTOS_ERROR_NO_MEMORY
    | RTOS_ERROR_INVALID_PARAM
    | RTOS_ERROR_BUSY
    | RTOS_ERROR_NOT_READY
}
